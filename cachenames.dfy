/** How `IOEngine` turns a logical series name into a physical location for
    each storage engine, how it reads the engine tag, and how it rewrites
    column names for the columnar (bcolz) engine. */
module CacheNames {

  import opened Wrappers
  import opened Text

  /** Replacement of the characters bcolz cannot hold in a column name:
      `INVALID_CHARS[k]` is written as `REPLACE_CHARS[k]`. */
  const INVALID_CHARS: seq<string> := ["&", ".", "-", "(", ")", "/", "%", "=", " "]
  const REPLACE_CHARS: seq<string> := ["_a_", "_d_", "_h_", "_o_", "_c_", "_s_", "_p_", "_e_", "_"]

  // ---------------------------------------------------------------------
  // File names

  /** `fname` with extension `ext`, added only when `fname[-|ext|:] != ext`. */
  function WithExtension(fname: string, ext: string): (r: string)
    requires |ext| > 0
    ensures EndsWith(r, ext)
    ensures EndsWith(fname, ext) ==> r == fname
    ensures !EndsWith(fname, ext) ==> r == fname + ext
  {
    TailSliceIsEndsWith(fname, ext);
    assert (fname + ext)[|fname|..] == ext;
    if TailSlice(fname, |ext|) == ext then fname else fname + ext
  }

  /** `get_h5_filename`: the hierarchical store's file for `fname`. */
  function H5Filename(fname: string): (r: string)
    ensures EndsWith(r, ".h5")
    ensures EndsWith(fname, ".h5") ==> r == fname
    ensures !EndsWith(fname, ".h5") ==> r == fname + ".h5"
  {
    WithExtension(fname, ".h5")
  }

  /** `get_bcolz_filename`: the columnar store's directory for `fname`. */
  function BcolzFilename(fname: string): (r: string)
    ensures EndsWith(r, ".bcolz")
    ensures EndsWith(fname, ".bcolz") ==> r == fname
    ensures !EndsWith(fname, ".bcolz") ==> r == fname + ".bcolz"
  {
    WithExtension(fname, ".bcolz")
  }

  lemma H5FilenameIdempotent(fname: string)
    ensures H5Filename(H5Filename(fname)) == H5Filename(fname)
  {
  }

  lemma BcolzFilenameIdempotent(fname: string)
    ensures BcolzFilename(BcolzFilename(fname)) == BcolzFilename(fname)
  {
  }

  /** `os.path.basename` with POSIX separators: the text after the last '/'. */
  function Basename(path: string): (r: string)
    ensures '/' !in r
    ensures EndsWith(path, r)
    ensures |r| < |path| ==> path[|path| - |r| - 1] == '/'
  {
    if path == [] || path[|path| - 1] == '/' then []
    else
      var n := |path|;
      var init := path[..n - 1];
      var b := Basename(init);
      assert init[n - 1 - |b|..] == b;
      assert path[n - 1 - |b|..] == init[n - 1 - |b|..] + [path[n - 1]];
      assert |b| < n - 1 ==> path[n - 2 - |b|] == init[n - 2 - |b|];
      b + [path[n - 1]]
  }

  /** The document store's library name for `fname`:
      `os.path.basename(fname).replace('.', '_')`. It has the length of the
      base name, no '.' and no '/', and agrees with the base name everywhere
      except that each '.' became '_'. */
  function ArcticLibraryName(fname: string): (r: string)
    ensures '.' !in r && '/' !in r
    ensures |r| == |Basename(fname)|
    ensures forall k :: 0 <= k < |r| ==>
              r[k] == if Basename(fname)[k] == '.' then '_' else Basename(fname)[k]
  {
    var b := Basename(fname);
    ReplaceCharByChar(b, '.', '_');
    ReplaceRemovesChar(b, '.', "_");
    ReplaceKeepsAbsent(b, ".", "_", '/');
    Replace(b, ".", "_")
  }

  // ---------------------------------------------------------------------
  // Engine tags

  /** The storage branch a call takes; `Other` takes none of them. */
  datatype Engine = Hdf5 | Bcolz | Arctic | Other(tag: string)

  /** What the writer settled on: the engine and the hierarchical sub-format. */
  datatype WriteTarget = WriteTarget(engine: Engine, hdf5Format: string)

  /** An engine tag compared for equality with the engine names. */
  function EngineNamed(tag: string): (r: Engine)
    ensures r == Bcolz <==> tag == "bcolz"
    ensures r == Arctic <==> tag == "arctic"
    ensures r == Hdf5 <==> tag == "hdf5"
    ensures r.Other? ==> r.tag == tag
  {
    if tag == "bcolz" then Bcolz
    else if tag == "arctic" then Arctic
    else if tag == "hdf5" then Hdf5
    else Other(tag)
  }

  /** `fmt` is the text between the first and the second '_' of `tag` (or
      after the first '_' when there is only one). */
  predicate IsSecondField(tag: string, fmt: string)
  {
    '_' in tag && '_' !in fmt &&
    var start := IndexOf(tag, '_') + 1;
    var end := start + |fmt|;
    end <= |tag| && tag[start..end] == fmt && (end == |tag| || tag[end] == '_')
  }

  /** The writer's reading of the engine tag: the format defaults to "fixed";
      a tag containing "hdf5" selects the hierarchical engine with the format
      `tag.split('_')[1]`, and raises IndexError when the tag has no '_'. */
  function WriteTargetOf(tag: string): (r: Result<WriteTarget>)
    ensures r.Failure? <==> Contains(tag, "hdf5") && '_' !in tag
    ensures r.Failure? ==> r.error == IndexError
    ensures r.Success? && Contains(tag, "hdf5") ==>
              r.value.engine == Hdf5 && IsSecondField(tag, r.value.hdf5Format)
    ensures !Contains(tag, "hdf5") ==>
              r.Success? && r.value.hdf5Format == "fixed" && r.value.engine != Hdf5
    ensures !Contains(tag, "hdf5") ==> r == Success(WriteTarget(EngineNamed(tag), "fixed"))
  {
    if Contains(tag, "hdf5") then
      var fields := Split(tag, '_');
      if |fields| < 2 then Failure(IndexError)
      else
        SecondFieldOfSplit(tag);
        Success(WriteTarget(Hdf5, fields[1]))
    else
      assert tag != "hdf5" by { assert OccursAt("hdf5", "hdf5", 0); }
      Success(WriteTarget(EngineNamed(tag), "fixed"))
  }

  lemma SecondFieldOfSplit(tag: string)
    requires |Split(tag, '_')| >= 2
    ensures IsSecondField(tag, Split(tag, '_')[1])
  {
    assert '_' in tag;
    var k := IndexOf(tag, '_');
    var fmt := Split(tag[k + 1..], '_')[0];
    assert Split(tag, '_')[1] == fmt by {
      assert Split(tag, '_') == [tag[..k]] + Split(tag[k + 1..], '_');
    }
    FirstFieldAfter(tag, k, fmt);
  }

  lemma FirstFieldAfter(tag: string, k: nat, fmt: string)
    requires '_' in tag && k == IndexOf(tag, '_')
    requires fmt == Split(tag[k + 1..], '_')[0]
    ensures IsSecondField(tag, fmt)
  {
    LeadingField(tag[k + 1..], fmt);
    SliceOfSuffix(tag, k + 1, |fmt|);
  }

  /** The first `n` characters after position `i` of `s`, and the one after them. */
  lemma SliceOfSuffix(s: string, i: nat, n: nat)
    requires i + n <= |s|
    ensures s[i..][..n] == s[i..i + n]
    ensures i + n < |s| ==> s[i..][n] == s[i + n]
  {
  }

  /** The first field of a split is a '_'-free prefix ending at a '_' or at the end. */
  lemma LeadingField(rest: string, fmt: string)
    requires fmt == Split(rest, '_')[0]
    ensures '_' !in fmt && |fmt| <= |rest| && rest[..|fmt|] == fmt
    ensures |fmt| < |rest| ==> rest[|fmt|] == '_'
  {
  }

  /** The engine branch `remove_time_series_cache_on_disk` takes: a tag
      containing "hdf5" means the hierarchical branch, with no sub-format.
      Only the arctic and hierarchical branches delete anything; the bcolz
      branch does nothing. */
  function RemoveEngineOf(tag: string): (r: Engine)
    ensures Contains(tag, "hdf5") <==> r == Hdf5
    ensures !Contains(tag, "hdf5") ==> r == EngineNamed(tag)
  {
    if Contains(tag, "hdf5") then Hdf5
    else
      assert tag != "hdf5" by { assert OccursAt("hdf5", "hdf5", 0); }
      EngineNamed(tag)
  }

  /** The engine `read_time_series_cache_from_disk` reads from: "bcolz" and
      "arctic" by name, and the hierarchical file for every other tag. */
  function ReadEngineOf(tag: string): (r: Engine)
    ensures r == Bcolz <==> tag == "bcolz"
    ensures r == Arctic <==> tag == "arctic"
    ensures !r.Other?
  {
    if tag == "bcolz" then Bcolz else if tag == "arctic" then Arctic else Hdf5
  }

  /** A tag the writer accepts and acts on makes the remover and the reader
      take the writer's engine branch. This is about the branch chosen only:
      for bcolz the remover's branch deletes nothing. */
  lemma EngineTagsAgree(tag: string)
    requires WriteTargetOf(tag).Success?
    ensures WriteTargetOf(tag).value.engine == RemoveEngineOf(tag)
    ensures !WriteTargetOf(tag).value.engine.Other? ==>
              WriteTargetOf(tag).value.engine == ReadEngineOf(tag)
  {
    if Contains(tag, "hdf5") {
      EngineNamesLackHdf5();
    }
  }

  lemma EngineNamesLackHdf5()
    ensures !Contains("bcolz", "hdf5") && !Contains("arctic", "hdf5")
  {
    forall k | 0 <= k <= 1 ensures !OccursAt("bcolz", "hdf5", k) {
      assert "bcolz"[k..k + 4][0] == "bcolz"[k] != 'h';
    }
    forall k | 0 <= k <= 2 ensures !OccursAt("arctic", "hdf5", k) {
      assert "arctic"[k..k + 4][0] == "arctic"[k] != 'h';
    }
  }

  /** A tag "hdf5_<format>" with no further '_' selects that format. */
  lemma {:induction false} Hdf5TagFormat(fmt: string)
    requires '_' !in fmt
    ensures WriteTargetOf("hdf5_" + fmt) == Success(WriteTarget(Hdf5, fmt))
  {
    var tag := "hdf5_" + fmt;
    assert OccursAt(tag, "hdf5", 0);
    assert tag[4] == '_' && '_' !in tag[..4];
    assert IndexOf(tag, '_') == 4;
    assert tag[5..] == fmt;
    assert Split(tag, '_') == [tag[..4]] + Split(fmt, '_');
  }

  /** The bare tag "hdf5" is accepted by the remover but makes the writer raise. */
  lemma BareTagExample()
    ensures WriteTargetOf("hdf5") == Failure(IndexError)
    ensures RemoveEngineOf("hdf5") == Hdf5
  {
    assert OccursAt("hdf5", "hdf5", 0);
  }

  // ---------------------------------------------------------------------
  // Column names for the columnar engine

  /** `x` after the first `n` find/replace pairs, each applied to the whole
      text in turn. */
  function ReplacePairs(x: string, toFind: seq<string>, replaceWith: seq<string>, n: nat): (r: string)
    requires n <= |toFind| && n <= |replaceWith|
    ensures (forall m :: 0 <= m < n ==> |replaceWith[m]| >= |toFind[m]|) ==> |r| >= |x|
    ensures (forall m :: 0 <= m < n ==> toFind[m] != [] && |replaceWith[m]| <= |toFind[m]|) ==> |r| <= |x|
  {
    if n == 0 then x
    else Replace(ReplacePairs(x, toFind, replaceWith, n - 1), toFind[n - 1], replaceWith[n - 1])
  }

  /** Once the text reached after `lo` pairs is left alone by the pairs
      `lo` to `hi - 1`, it is also the text reached after `hi` pairs. */
  lemma {:induction false} ReplacePairsSettled(x: string, toFind: seq<string>, replaceWith: seq<string>,
                                               lo: nat, hi: nat)
    requires lo <= hi <= |toFind| && hi <= |replaceWith|
    requires forall n :: lo <= n < hi ==>
               Replace(ReplacePairs(x, toFind, replaceWith, lo), toFind[n], replaceWith[n])
               == ReplacePairs(x, toFind, replaceWith, lo)
    ensures ReplacePairs(x, toFind, replaceWith, hi) == ReplacePairs(x, toFind, replaceWith, lo)
    decreases hi
  {
    if lo < hi {
      ReplacePairsSettled(x, toFind, replaceWith, lo, hi - 1);
      assert ReplacePairs(x, toFind, replaceWith, hi)
             == Replace(ReplacePairs(x, toFind, replaceWith, hi - 1), toFind[hi - 1], replaceWith[hi - 1]);
    }
  }

  /** `find_replace_chars`: every name with every pair applied in order. The
      list keeps its length and order; `replace_with[i]` is evaluated once per
      name, so a short replacement list raises IndexError only when there is
      at least one name. */
  method FindReplaceChars(names: seq<string>, toFind: seq<string>, replaceWith: seq<string>)
    returns (r: Result<seq<string>>)
    ensures r.Failure? <==> |names| > 0 && |replaceWith| < |toFind|
    ensures r.Failure? ==> r.error == IndexError
    ensures r.Success? ==>
              |r.value| == |names| &&
              forall j :: 0 <= j < |names| ==>
                r.value[j] == ReplacePairs(names[j], toFind, replaceWith, |toFind|)
  {
    var names' := names;
    var i := 0;
    while i < |toFind|
      invariant 0 <= i <= |toFind|
      invariant |names'| == |names|
      invariant |names| > 0 ==> i <= |replaceWith|
      invariant forall j :: 0 <= j < |names| ==>
                  names'[j] == ReplacePairs(names[j], toFind, replaceWith, i)
    {
      if |names| > 0 && i >= |replaceWith| {
        return Failure(IndexError);
      }
      var prev := names';
      names' := seq(|prev|, j requires 0 <= j < |prev| => Replace(prev[j], toFind[i], replaceWith[i]));
      i := i + 1;
    }
    return Success(names');
  }

  /** Each invalid character is one character, and each of its replacements
      at least one. */
  lemma PairLengths()
    ensures |INVALID_CHARS| == |REPLACE_CHARS|
    ensures forall m :: 0 <= m < |REPLACE_CHARS| ==> |INVALID_CHARS[m]| == 1 && |REPLACE_CHARS[m]| >= 1
  {
    forall m | 0 <= m < |REPLACE_CHARS|
      ensures |INVALID_CHARS[m]| == 1 && |REPLACE_CHARS[m]| >= 1
    {
      assert m == 0 || m == 1 || m == 2 || m == 3 || m == 4 || m == 5 || m == 6 || m == 7 || m == 8;
    }
  }

  /** A bcolz column name as written: the invalid characters replaced, then
      the prefix "A_". Encoding never shortens the name. */
  function EncodeColumn(name: string): (r: string)
    ensures |r| >= |name| + 2 && r[..2] == "A_"
  {
    PairLengths();
    "A_" + ReplacePairs(name, INVALID_CHARS, REPLACE_CHARS, |INVALID_CHARS|)
  }

  /** A bcolz column name as read back: the replacements turned back into
      characters, then the first two characters dropped. Decoding never
      lengthens the name, and drops two characters from it. */
  function DecodeColumn(name: string): (r: string)
    ensures |name| >= 2 ==> |r| <= |name| - 2
    ensures |name| < 2 ==> r == []
  {
    PairLengths();
    Drop(ReplacePairs(name, REPLACE_CHARS, INVALID_CHARS, |REPLACE_CHARS|), 2)
  }

  /** Characters that the replacements are made of. */
  predicate IsWordChar(c: char)
  {
    ('a' <= c <= 'z') || ('A' <= c <= 'Z') || c == '_'
  }

  lemma ReplacementsAreWords(m: nat, k: nat)
    requires m < |REPLACE_CHARS| && k < |REPLACE_CHARS[m]|
    ensures IsWordChar(REPLACE_CHARS[m][k])
  {
    assert m == 0 || m == 1 || m == 2 || m == 3 || m == 4 || m == 5 || m == 6 || m == 7 || m == 8;
  }

  lemma InvalidCharsAreSingle(m: nat)
    requires m < |INVALID_CHARS|
    ensures |INVALID_CHARS[m]| == 1 && !IsWordChar(INVALID_CHARS[m][0])
  {
    assert m == 0 || m == 1 || m == 2 || m == 3 || m == 4 || m == 5 || m == 6 || m == 7 || m == 8;
  }

  /** No invalid character `INVALID_CHARS[m][0]` occurs in any replacement. */
  lemma InvalidNotInReplacement(m: nat, n: nat)
    requires m < |INVALID_CHARS| && n < |REPLACE_CHARS|
    ensures INVALID_CHARS[m][0] !in REPLACE_CHARS[n]
  {
    InvalidCharsAreSingle(m);
    forall k | 0 <= k < |REPLACE_CHARS[n]| ensures REPLACE_CHARS[n][k] != INVALID_CHARS[m][0] {
      ReplacementsAreWords(n, k);
    }
  }

  /** After the first `n` pairs, none of the first `n` invalid characters is left. */
  lemma {:induction false} ReplacePairsRemovesInvalid(x: string, n: nat)
    requires n <= |INVALID_CHARS|
    ensures forall m :: 0 <= m < n ==>
              INVALID_CHARS[m][0] !in ReplacePairs(x, INVALID_CHARS, REPLACE_CHARS, n)
  {
    if n > 0 {
      ReplacePairsRemovesInvalid(x, n - 1);
      var before := ReplacePairs(x, INVALID_CHARS, REPLACE_CHARS, n - 1);
      assert ReplacePairs(x, INVALID_CHARS, REPLACE_CHARS, n)
             == Replace(before, INVALID_CHARS[n - 1], REPLACE_CHARS[n - 1]);
      RemoveInvalidStep(before, n);
    }
  }

  /** Pair `n - 1` removes its own invalid character and brings back none of
      the earlier ones. */
  lemma RemoveInvalidStep(before: string, n: nat)
    requires 0 < n <= |INVALID_CHARS|
    requires forall m :: 0 <= m < n - 1 ==> INVALID_CHARS[m][0] !in before
    ensures forall m :: 0 <= m < n ==>
              INVALID_CHARS[m][0] !in Replace(before, INVALID_CHARS[n - 1], REPLACE_CHARS[n - 1])
  {
    InvalidCharsAreSingle(n - 1);
    var c := INVALID_CHARS[n - 1][0];
    assert INVALID_CHARS[n - 1] == [c];
    InvalidNotInReplacement(n - 1, n - 1);
    ReplaceRemovesChar(before, c, REPLACE_CHARS[n - 1]);
    forall m | 0 <= m < n - 1
      ensures INVALID_CHARS[m][0] !in Replace(before, INVALID_CHARS[n - 1], REPLACE_CHARS[n - 1])
    {
      InvalidNotInReplacement(m, n - 1);
      ReplaceKeepsAbsent(before, INVALID_CHARS[n - 1], REPLACE_CHARS[n - 1], INVALID_CHARS[m][0]);
    }
  }

  /** A column name bcolz writes starts with "A_" and holds none of
      & . - ( ) / % = or space. */
  lemma EncodedColumnIsSafe(name: string)
    ensures EncodeColumn(name)[..2] == "A_"
    ensures forall m :: 0 <= m < |INVALID_CHARS| ==> INVALID_CHARS[m][0] !in EncodeColumn(name)
  {
    ReplacePairsRemovesInvalid(name, |INVALID_CHARS|);
    var body := ReplacePairs(name, INVALID_CHARS, REPLACE_CHARS, |INVALID_CHARS|);
    assert EncodeColumn(name) == "A_" + body;
    forall m | 0 <= m < |INVALID_CHARS| ensures INVALID_CHARS[m][0] !in EncodeColumn(name) {
      InvalidCharsAreSingle(m);
    }
  }

  /** The "A_" prefix added on write is exactly what the read drops. */
  lemma PrefixDropRoundTrip(name: string)
    ensures Drop("A_" + name, 2) == name
  {
    assert ("A_" + name)[2..] == name;
  }

  /** A text made of letters and '_' only. */
  predicate AllWordChars(s: string)
  {
    forall k :: 0 <= k < |s| ==> IsWordChar(s[k])
  }

  lemma WordTextUnchanged(s: string, n: nat)
    requires n < |INVALID_CHARS| && AllWordChars(s)
    ensures Replace(s, INVALID_CHARS[n], REPLACE_CHARS[n]) == s
  {
    InvalidCharsAreSingle(n);
    ReplaceUnmatched(s, INVALID_CHARS[n], REPLACE_CHARS[n]);
  }

  /** A name made of letters and '_' only is written as it is, after the prefix. */
  lemma EncodeWordName(s: string)
    requires AllWordChars(s)
    ensures EncodeColumn(s) == "A_" + s
  {
    var I, R := INVALID_CHARS, REPLACE_CHARS;
    forall n | 0 <= n < 9 ensures Replace(ReplacePairs(s, I, R, 0), I[n], R[n]) == ReplacePairs(s, I, R, 0) {
      WordTextUnchanged(s, n);
    }
    ReplacePairsSettled(s, I, R, 0, 9);
  }

  /** No '_' where an encoded character such as "_a_" could start. */
  predicate NoTripleStart(v: string)
  {
    forall k :: 0 <= k <= |v| - 3 ==> v[k] != '_'
  }

  lemma TripleUnmatched(v: string, n: nat)
    requires n < 8 && NoTripleStart(v)
    ensures Replace(v, REPLACE_CHARS[n], INVALID_CHARS[n]) == v
  {
    var R := REPLACE_CHARS;
    assert |R[n]| == 3 && R[n][0] == '_' by {
      assert n == 0 || n == 1 || n == 2 || n == 3 || n == 4 || n == 5 || n == 6 || n == 7;
    }
    ReplaceUnmatched(v, R[n], INVALID_CHARS[n]);
  }

  /** The last reverse pair turns every '_' into a space. */
  lemma UnderscoresToSpaces(v: string)
    ensures |Replace(v, REPLACE_CHARS[8], INVALID_CHARS[8])| == |v|
    ensures forall k :: 0 <= k < |v| ==>
              Replace(v, REPLACE_CHARS[8], INVALID_CHARS[8])[k] == if v[k] == '_' then ' ' else v[k]
  {
    assert REPLACE_CHARS[8] == ['_'] && INVALID_CHARS[8] == [' '];
    ReplaceCharByChar(v, '_', ' ');
  }

  /** Decoding does not undo encoding. "a.b" is written as "A_a_d_b"; on the
      way back its "_a_" is taken for an encoded '&', and what remains of
      the name after the prefix is dropped is "d b". */
  lemma DotNameDoesNotRoundTrip(name: string)
    requires name == "a.b"
    ensures EncodeColumn(name) == "A_a_d_b"
    ensures DecodeColumn(EncodeColumn(name)) == "d b"
  {
    EncodeDotName(name);
    DecodeDotName(EncodeColumn(name));
  }

  lemma EncodeDotName(name: string)
    requires name == "a.b"
    ensures EncodeColumn(name) == "A_a_d_b"
  {
    EncodeDotNamePairs(name);
    EncodeAfterPairs(name, "a_d_b");
    PrefixedText("A_", "a_d_b", "A_a_d_b");
  }

  /** Text concatenation, spelled out character by character. */
  lemma PrefixedText(p: string, s: string, t: string)
    requires |t| == |p| + |s|
    requires forall k :: 0 <= k < |p| ==> t[k] == p[k]
    requires forall k :: 0 <= k < |s| ==> t[|p| + k] == s[k]
    ensures p + s == t
  {
  }

  lemma EncodeDotNamePairs(name: string)
    requires name == "a.b"
    ensures ReplacePairs(name, INVALID_CHARS, REPLACE_CHARS, 9) == "a_d_b"
  {
    EncodeDotNameFirstPairs(name);
    EncodedDotNameSettled();
    ReplacePairsSettled(name, INVALID_CHARS, REPLACE_CHARS, 2, 9);
  }

  lemma EncodedDotNameSettled()
    ensures forall n :: 2 <= n < 9 ==> Replace("a_d_b", INVALID_CHARS[n], REPLACE_CHARS[n]) == "a_d_b"
  {
    var e := "a_d_b";
    assert AllWordChars(e) by {
      forall k | 0 <= k < |e| ensures IsWordChar(e[k]) {
        assert k == 0 || k == 1 || k == 2 || k == 3 || k == 4;
      }
    }
    forall n | 2 <= n < 9 ensures Replace(e, INVALID_CHARS[n], REPLACE_CHARS[n]) == e {
      WordTextUnchanged(e, n);
    }
  }

  lemma EncodeAfterPairs(name: string, body: string)
    requires ReplacePairs(name, INVALID_CHARS, REPLACE_CHARS, 9) == body
    ensures EncodeColumn(name) == "A_" + body
  {
    assert |INVALID_CHARS| == 9;
  }

  lemma DecodeAfterPairs(name: string, body: string)
    requires ReplacePairs(name, REPLACE_CHARS, INVALID_CHARS, 9) == body
    ensures DecodeColumn(name) == Drop(body, 2)
  {
    assert |REPLACE_CHARS| == 9;
  }

  lemma EncodeDotNameFirstPairs(name: string)
    requires name == "a.b"
    ensures ReplacePairs(name, INVALID_CHARS, REPLACE_CHARS, 2) == "a_d_b"
  {
    ReplaceUnmatched("a.b", "&", "_a_");
    assert Replace("b", ".", "_d_") == "b";
    assert Replace(".b", ".", "_d_") == "_d_b";
    assert Replace("a.b", ".", "_d_") == "a_d_b";
  }

  lemma DecodeDotName(written: string)
    requires written == "A_a_d_b"
    ensures DecodeColumn(written) == "d b"
  {
    DecodeDotNamePairs(written);
    DecodeAfterPairs(written, "A&d b");
    assert Drop("A&d b", 2) == "d b";
  }

  lemma DecodeDotNamePairs(written: string)
    requires written == "A_a_d_b"
    ensures ReplacePairs(written, REPLACE_CHARS, INVALID_CHARS, 9) == "A&d b"
  {
    DecodeDotNameFirstPair(written);
    DecodedDotNameSettled();
    ReplacePairsSettled(written, REPLACE_CHARS, INVALID_CHARS, 1, 8);
    UnderscoresToSpaces("A&d_b");
    assert Replace("A&d_b", REPLACE_CHARS[8], INVALID_CHARS[8]) == "A&d b";
  }

  lemma DecodedDotNameSettled()
    ensures forall n :: 1 <= n < 8 ==> Replace("A&d_b", REPLACE_CHARS[n], INVALID_CHARS[n]) == "A&d_b"
  {
    var v := "A&d_b";
    assert NoTripleStart(v) by {
      forall k | 0 <= k <= |v| - 3 ensures v[k] != '_' {
        assert k == 0 || k == 1 || k == 2;
      }
    }
    forall n | 1 <= n < 8 ensures Replace(v, REPLACE_CHARS[n], INVALID_CHARS[n]) == v {
      TripleUnmatched(v, n);
    }
  }

  lemma DecodeDotNameFirstPair(w: string)
    requires w == "A_a_d_b"
    ensures ReplacePairs(w, REPLACE_CHARS, INVALID_CHARS, 1) == "A&d_b"
  {
    assert Replace("d_b", "_a_", "&") == "d_b";
    assert w[1..][..3] == "_a_" && w[1..][3..] == "d_b";
    assert Replace(w[1..], "_a_", "&") == "&d_b";
    assert Replace(w, "_a_", "&") == "A&d_b";
  }

  /** An underscore in a name reads back as a space: "_" is written as
      "A__" and read as " ". */
  lemma UnderscoreReadsAsSpace(name: string)
    requires name == "_"
    ensures EncodeColumn(name) == "A__"
    ensures DecodeColumn(EncodeColumn(name)) == " "
  {
    assert AllWordChars(name);
    EncodeWordName(name);
    assert "A_" + "_" == "A__";
    var written := EncodeColumn(name);
    DecodeUnderscorePairs(written);
    DecodeAfterPairs(written, "A  ");
    assert Drop("A  ", 2) == " ";
  }

  lemma DecodeUnderscorePairs(v: string)
    requires v == "A__"
    ensures ReplacePairs(v, REPLACE_CHARS, INVALID_CHARS, 9) == "A  "
  {
    assert NoTripleStart(v);
    forall n | 0 <= n < 8 ensures Replace(v, REPLACE_CHARS[n], INVALID_CHARS[n]) == v {
      TripleUnmatched(v, n);
    }
    ReplacePairsSettled(v, REPLACE_CHARS, INVALID_CHARS, 0, 8);
    assert ReplacePairs(v, REPLACE_CHARS, INVALID_CHARS, 9)
           == Replace(ReplacePairs(v, REPLACE_CHARS, INVALID_CHARS, 8), REPLACE_CHARS[8], INVALID_CHARS[8]);
    UnderscoresToSpaces(v);
    assert Replace(v, REPLACE_CHARS[8], INVALID_CHARS[8]) == "A  ";
  }

  /** The bcolz write path's column renaming: the characters replaced by
      `find_replace_chars`, then "A_" put in front of every name. */
  method BcolzWriteColumns(columns: seq<string>) returns (r: seq<string>)
    ensures |r| == |columns|
    ensures forall j :: 0 <= j < |columns| ==> r[j] == EncodeColumn(columns[j])
  {
    var replaced := FindReplaceChars(columns, INVALID_CHARS, REPLACE_CHARS);
    r := seq(|replaced.value|, j requires 0 <= j < |replaced.value| => "A_" + replaced.value[j]);
  }

  /** The bcolz read path's column renaming: the replacements turned back,
      then the first two characters of every name sliced off. */
  method BcolzReadColumns(columns: seq<string>) returns (r: seq<string>)
    ensures |r| == |columns|
    ensures forall j :: 0 <= j < |columns| ==> r[j] == DecodeColumn(columns[j])
  {
    var replaced := FindReplaceChars(columns, REPLACE_CHARS, INVALID_CHARS);
    r := seq(|replaced.value|, j requires 0 <= j < |replaced.value| => Drop(replaced.value[j], 2));
  }
}
