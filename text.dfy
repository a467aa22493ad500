/** The Python string operations that the modelled code relies on, with the
    edge cases (empty pattern, out-of-range bounds, blank text) that Python's
    `str` defines; character classes are the ASCII ones. */
module Text {

  import Seqs

  /** `s` ends with `suffix`. */
  predicate EndsWith(s: string, suffix: string)
  {
    |suffix| <= |s| && s[|s| - |suffix|..] == suffix
  }

  /** `pat in s`: `pat` occurs in `s` as a contiguous substring. The empty
      pattern occurs in every text, and a pattern longer than the text in none. */
  predicate Contains(s: string, pat: string)
    ensures pat == [] ==> Contains(s, pat)
    ensures Contains(s, pat) ==> |pat| <= |s|
  {
    assert pat == [] ==> OccursAt(s, pat, 0);
    exists k | 0 <= k <= |s| - |pat| :: OccursAt(s, pat, k)
  }

  /** A one-character pattern occurs exactly when that character is in the text. */
  lemma ContainsChar(s: string, c: char)
    ensures Contains(s, [c]) <==> c in s
  {
    if c in s {
      var k :| 0 <= k < |s| && s[k] == c;
      assert OccursAt(s, [c], k);
    }
    if Contains(s, [c]) {
      var pat := [c];
      var k :| 0 <= k <= |s| - |pat| && OccursAt(s, pat, k);
      assert s[k..k + 1] == pat;
      assert s[k] == c;
    }
  }

  /** `pat` occurs in `s` starting at position `k`. */
  predicate OccursAt(s: string, pat: string, k: int)
  {
    0 <= k <= |s| - |pat| && s[k..k + |pat|] == pat
  }

  /** Python's `s[-n:]` for `n > 0`: the last `n` characters, or all of `s`
      when it is shorter. */
  function TailSlice(s: string, n: nat): (r: string)
    requires n > 0
    ensures |r| == if |s| <= n then |s| else n
    ensures EndsWith(s, r)
  {
    if |s| <= n then s else s[|s| - n..]
  }

  /** Comparing the last |ext| characters with `ext` is the same as a suffix test. */
  lemma TailSliceIsEndsWith(s: string, ext: string)
    requires |ext| > 0
    ensures TailSlice(s, |ext|) == ext <==> EndsWith(s, ext)
  {
  }

  /** Python's `s[lo:hi]` for `0 <= lo <= hi`: bounds past the end are
      clipped, so slicing never fails. */
  function Slice(s: string, lo: nat, hi: nat): (r: string)
    requires lo <= hi
    ensures |r| <= hi - lo
    ensures hi <= |s| ==> r == s[lo..hi]
    ensures |s| <= lo ==> r == []
    ensures lo < |s| < hi ==> r == s[lo..]
  {
    var a := if lo < |s| then lo else |s|;
    var b := if hi < |s| then hi else |s|;
    s[a..b]
  }

  /** Python's `s[n:]`: everything from position `n` on, or nothing when
      `s` is shorter. */
  function Drop(s: string, n: nat): (r: string)
    ensures |r| == if |s| <= n then 0 else |s| - n
    ensures forall k :: 0 <= k < |r| ==> r[k] == s[n + k]
  {
    if |s| <= n then [] else s[n..]
  }

  /** Python's `s.replace("", rep)`: `rep` before, between and after every character. */
  function Interleave(s: string, rep: string): (r: string)
    ensures |r| == |s| + (|s| + 1) * |rep|
  {
    if s == [] then rep else rep + [s[0]] + Interleave(s[1..], rep)
  }

  /** In `s.replace("", rep)`, gap `k` (of length |rep| + 1 per character)
      holds `rep` followed by the `k`-th character of `s`. */
  lemma {:induction false} InterleaveAt(s: string, rep: string, k: nat)
    requires k < |s|
    ensures k * (|rep| + 1) + |rep| < |Interleave(s, rep)|
    ensures Interleave(s, rep)[k * (|rep| + 1)..k * (|rep| + 1) + |rep|] == rep
    ensures Interleave(s, rep)[k * (|rep| + 1) + |rep|] == s[k]
    decreases k
  {
    var m := |rep| + 1;
    var t := Interleave(s[1..], rep);
    assert Interleave(s, rep) == rep + [s[0]] + t;
    if k > 0 {
      InterleaveAt(s[1..], rep, k - 1);
      var p := (k - 1) * m;
      assert k * m == p + m;
    }
  }

  /** ... and `rep` also closes the result, after the last character. */
  lemma {:induction false} InterleaveLast(s: string, rep: string)
    ensures |s| * (|rep| + 1) <= |Interleave(s, rep)|
    ensures Interleave(s, rep)[|s| * (|rep| + 1)..] == rep
    decreases |s|
  {
    if s != [] {
      InterleaveLast(s[1..], rep);
      var m := |rep| + 1;
      var t := Interleave(s[1..], rep);
      assert Interleave(s, rep) == rep + [s[0]] + t;
      assert |s| * m == (|s| - 1) * m + m;
    }
  }

  /** Python's `s.replace(pat, rep)`: every occurrence of `pat`, found left to
      right without overlaps, is replaced by `rep`. */
  function Replace(s: string, pat: string, rep: string): (r: string)
    ensures pat != [] && |rep| <= |pat| ==> |r| <= |s|
    ensures |rep| >= |pat| ==> |r| >= |s|
    decreases |s|
  {
    if pat == [] then Interleave(s, rep)
    else if |s| < |pat| then s
    else if s[..|pat|] == pat then rep + Replace(s[|pat|..], pat, rep)
    else [s[0]] + Replace(s[1..], pat, rep)
  }

  /** A pattern whose first character starts at no position of `s` changes nothing. */
  lemma {:induction false} ReplaceUnmatched(s: string, pat: string, rep: string)
    requires pat != []
    requires forall k :: 0 <= k <= |s| - |pat| ==> s[k] != pat[0]
    ensures Replace(s, pat, rep) == s
    decreases |s|
  {
    if |s| >= |pat| {
      assert s[..|pat|][0] != pat[0];
      ReplaceUnmatched(s[1..], pat, rep);
      assert s == [s[0]] + s[1..];
    }
  }

  /** Replacing the character `c` by a text without `c` leaves no `c` behind. */
  lemma {:induction false} ReplaceRemovesChar(s: string, c: char, rep: string)
    requires c !in rep
    ensures c !in Replace(s, [c], rep)
    decreases |s|
  {
    if |s| >= 1 {
      ReplaceRemovesChar(s[1..], c, rep);
      if s[..1] == [c] {
        assert s[1..] == s[|[c]|..];
      } else {
        assert s[0] != c;
      }
    }
  }

  lemma {:induction false} InterleaveKeepsAbsent(s: string, rep: string, c: char)
    requires c !in s && c !in rep
    ensures c !in Interleave(s, rep)
    decreases |s|
  {
    if s != [] {
      InterleaveKeepsAbsent(s[1..], rep, c);
    }
  }

  /** A character absent from both the text and the replacement stays absent. */
  lemma {:induction false} ReplaceKeepsAbsent(s: string, pat: string, rep: string, c: char)
    requires c !in s && c !in rep
    ensures c !in Replace(s, pat, rep)
    decreases |s|
  {
    if pat == [] {
      InterleaveKeepsAbsent(s, rep, c);
    } else if |s| >= |pat| {
      if s[..|pat|] == pat {
        ReplaceKeepsAbsent(s[|pat|..], pat, rep, c);
      } else {
        ReplaceKeepsAbsent(s[1..], pat, rep, c);
      }
    }
  }

  /** Replacing one character by one character keeps the length and maps
      each position independently. */
  lemma {:induction false} ReplaceCharByChar(s: string, a: char, b: char)
    ensures |Replace(s, [a], [b])| == |s|
    ensures forall k :: 0 <= k < |s| ==>
              Replace(s, [a], [b])[k] == if s[k] == a then b else s[k]
    decreases |s|
  {
    if |s| >= 1 {
      ReplaceCharByChar(s[1..], a, b);
      var r := Replace(s, [a], [b]);
      if s[..1] == [a] {
        assert r == [b] + Replace(s[1..], [a], [b]);
      } else {
        assert r == [s[0]] + Replace(s[1..], [a], [b]);
      }
    }
  }

  /** Removing a character: Python's `s.replace(c, "")` keeps every other
      character, in order. */
  lemma {:induction false} ReplaceByEmpty(s: string, c: char)
    ensures Replace(s, [c], []) == Seqs.Filter(s, NotChar(c))
    decreases |s|
  {
    if |s| >= 1 {
      ReplaceByEmpty(s[1..], c);
      assert s == [s[0]] + s[1..];
    }
  }

  /** The test "is not `c`", to select with. */
  function NotChar(c: char): char -> bool
  {
    x => x != c
  }

  /** The position of the first `c` in `s`. */
  function IndexOf(s: string, c: char): (k: nat)
    requires c in s
    ensures k < |s| && s[k] == c && c !in s[..k]
  {
    if s[0] == c then 0 else 1 + IndexOf(s[1..], c)
  }

  /** Python's `sep.join(parts)` for a one-character separator. */
  function Join(parts: seq<string>, sep: char): string
    requires |parts| >= 1
  {
    if |parts| == 1 then parts[0] else parts[0] + [sep] + Join(parts[1..], sep)
  }

  /** Python's `s.split(sep)` for a one-character separator: the fields
      between separators, so that joining them again gives back `s`. */
  function Split(s: string, sep: char): (r: seq<string>)
    ensures |r| >= 1
    ensures |r[0]| <= |s| && s[..|r[0]|] == r[0]
    ensures |r[0]| < |s| ==> s[|r[0]|] == sep
    ensures forall k :: 0 <= k < |r| ==> sep !in r[k]
    ensures |r| == 1 <==> sep !in s
    decreases |s|
  {
    if sep !in s then [s]
    else
      var k := IndexOf(s, sep);
      Around(s, k);
      [s[..k]] + Split(s[k + 1..], sep)
  }

  /** A text is what comes before position `k`, the character there, and what follows. */
  lemma Around(s: string, k: nat)
    requires k < |s|
    ensures s == s[..k] + [s[k]] + s[k + 1..]
  {
  }

  /** Joining the fields again with the separator gives back the text. */
  lemma {:induction false} SplitJoin(s: string, sep: char)
    ensures Join(Split(s, sep), sep) == s
    decreases |s|
  {
    if sep in s {
      var k := IndexOf(s, sep);
      var tail := s[k + 1..];
      var rest := Split(tail, sep);
      SplitJoin(tail, sep);
      var head := s[..k];
      assert Split(s, sep) == [head] + rest;
      JoinCons(head, rest, sep);
      assert Join(Split(s, sep), sep) == head + [sep] + tail;
      Around(s, k);
    } else {
      assert Split(s, sep) == [s];
    }
  }

  lemma JoinCons(head: string, rest: seq<string>, sep: char)
    requires |rest| >= 1
    ensures Join([head] + rest, sep) == head + [sep] + Join(rest, sep)
  {
    assert ([head] + rest)[1..] == rest;
  }

  /** Python's `str(n)` for a natural number: the decimal digits of `n`,
      without leading zeros. */
  function DecimalString(n: nat): (r: string)
    ensures |r| >= 1
    ensures forall k :: 0 <= k < |r| ==> '0' <= r[k] <= '9'
    ensures n < 10 <==> |r| == 1
  {
    if n < 10 then [DigitChar(n)] else DecimalString(n / 10) + [DigitChar(n % 10)]
  }

  /** `str(n)` spells the number `n`, and has a leading zero only for 0. */
  lemma {:induction false} DecimalStringValue(n: nat)
    ensures AllDigits(DecimalString(n)) && DigitsValue(DecimalString(n)) == n
    ensures n >= 1 ==> DecimalString(n)[0] != '0'
  {
    if n >= 10 {
      DecimalStringValue(n / 10);
      var r := DecimalString(n);
      assert r[..|r| - 1] == DecimalString(n / 10);
    }
  }

  function DigitChar(d: nat): (c: char)
    requires d < 10
    ensures '0' <= c <= '9'
    ensures (c as int) - ('0' as int) == d
  {
    (('0' as int) + d) as char
  }

  predicate IsDigit(c: char)
  {
    '0' <= c <= '9'
  }

  predicate AllDigits(s: string)
  {
    forall k :: 0 <= k < |s| ==> IsDigit(s[k])
  }

  /** The value of a string of decimal digits, most significant first. */
  function DigitsValue(s: string): nat
    requires AllDigits(s)
  {
    if s == [] then 0
    else DigitsValue(s[..|s| - 1]) * 10 + ((s[|s| - 1] as int) - ('0' as int))
  }

  /** The characters `int()` skips around a number in an ASCII text: tab,
      line feed, vertical tab, form feed, carriage return and space. The
      separators 0x1C-0x1F count as space for `str.isspace()`, but `int()`
      does not skip them. */
  predicate IsSpace(c: char)
  {
    c == ' ' || '\t' <= c <= '\r'
  }

  /** `s` without leading and trailing whitespace. */
  function Strip(s: string): (r: string)
    ensures |r| <= |s|
    ensures |r| > 0 ==> !IsSpace(r[0]) && !IsSpace(r[|r| - 1])
    ensures (|s| == 0 || (!IsSpace(s[0]) && !IsSpace(s[|s| - 1]))) ==> r == s
    decreases |s|
  {
    if |s| > 0 && IsSpace(s[0]) then Strip(s[1..])
    else if |s| > 0 && IsSpace(s[|s| - 1]) then Strip(s[..|s| - 1])
    else s
  }

  /** Stripping cuts `s` down to a slice `s[a..b]`, and what it cuts off
      at either end is all whitespace. */
  lemma {:induction false} StripIsTrim(s: string) returns (a: nat, b: nat)
    ensures a <= b <= |s| && Strip(s) == s[a..b]
    ensures forall k :: 0 <= k < a ==> IsSpace(s[k])
    ensures forall k :: b <= k < |s| ==> IsSpace(s[k])
    decreases |s|
  {
    if |s| > 0 && IsSpace(s[0]) {
      var a', b' := StripIsTrim(s[1..]);
      a, b := a' + 1, b' + 1;
      SliceOfTail(s, a', b');
    } else if |s| > 0 && IsSpace(s[|s| - 1]) {
      a, b := StripIsTrim(s[..|s| - 1]);
      SliceOfInit(s, a, b);
    } else {
      a, b := 0, |s|;
    }
  }

  /** A slice of `s[1..]` is the slice of `s` one position further on. */
  lemma SliceOfTail(s: string, a: nat, b: nat)
    requires 1 <= |s| && a <= b <= |s| - 1
    ensures s[1..][a..b] == s[a + 1..b + 1]
    ensures forall k :: 1 <= k < |s| ==> s[k] == s[1..][k - 1]
  {
  }

  /** A slice of `s` without its last character is the same slice of `s`. */
  lemma SliceOfInit(s: string, a: nat, b: nat)
    requires 1 <= |s| && a <= b <= |s| - 1
    ensures s[..|s| - 1][a..b] == s[a..b]
    ensures forall k :: 0 <= k < |s| - 1 ==> s[k] == s[..|s| - 1][k]
  {
  }
}
