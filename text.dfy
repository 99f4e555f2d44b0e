/**
 * The Python string operations the scripts rely on, over `seq<char>`:
 * `str.isspace`, `str.strip`, `str.lower`, `in`, `str.find`, `str.split`,
 * `str.join`, `str.replace(pat, "")` and `str(int)`.
 * Character classes are the ASCII ones.
 */
module Text {
  import opened Wrappers

  /** `c.isspace()` for the ASCII range. */
  predicate IsSpace(c: char) {
    c == ' ' || c == '\t' || c == '\n' || c == '\r' || c == '\U{B}' || c == '\U{C}'
    || ('\U{1C}' <= c <= '\U{1F}')
  }

  predicate IsUpper(c: char) { 'A' <= c <= 'Z' }

  predicate IsLowerLetter(c: char) { 'a' <= c <= 'z' }

  /** `c.isdigit()` for the ASCII range. */
  predicate IsDigit(c: char) { '0' <= c <= '9' }

  /** `c.isalpha()` for the ASCII range. */
  predicate IsAlpha(c: char) { IsUpper(c) || IsLowerLetter(c) }

  /** Every character is whitespace (true of the empty string). */
  predicate IsBlank(s: string) {
    forall i :: 0 <= i < |s| ==> IsSpace(s[i])
  }

  /** Neither end is whitespace: what `strip` leaves. */
  predicate IsStripped(s: string) {
    s == [] || (!IsSpace(s[0]) && !IsSpace(s[|s| - 1]))
  }

  function TrimLeft(s: string): (r: string)
    ensures |r| <= |s|
    ensures r == [] || !IsSpace(r[0])
  {
    if s != [] && IsSpace(s[0]) then TrimLeft(s[1..]) else s
  }

  /** `TrimLeft` drops a run of leading whitespace and keeps the rest. */
  lemma {:induction false} TrimLeftSlice(s: string)
    ensures TrimLeft(s) == s[|s| - |TrimLeft(s)|..]
    ensures forall i :: 0 <= i < |s| - |TrimLeft(s)| ==> IsSpace(s[i])
    decreases |s|
  {
    if s != [] && IsSpace(s[0]) {
      TrimLeftSlice(s[1..]);
    }
  }

  function TrimRight(s: string): (r: string)
    ensures |r| <= |s|
    ensures r == [] || !IsSpace(r[|r| - 1])
  {
    if s != [] && IsSpace(s[|s| - 1]) then TrimRight(s[..|s| - 1]) else s
  }

  /** `TrimRight` drops a run of trailing whitespace and keeps the rest. */
  lemma {:induction false} TrimRightSlice(s: string)
    ensures TrimRight(s) == s[..|TrimRight(s)|]
    ensures forall i :: |TrimRight(s)| <= i < |s| ==> IsSpace(s[i])
    decreases |s|
  {
    if s != [] && IsSpace(s[|s| - 1]) {
      TrimRightSlice(s[..|s| - 1]);
    }
  }

  /** `s.strip()`: what is left has no whitespace at either end, and it is empty
      exactly when `s` is blank. */
  function Strip(s: string): (r: string)
    ensures IsStripped(r)
    ensures |r| <= |s|
    ensures r == [] <==> IsBlank(s)
  {
    TrimLeftSlice(s);
    var l := TrimLeft(s);
    TrimRightSlice(l);
    var r := TrimRight(l);
    if r == [] then
      r
    else
      assert r[0] == l[0];
      assert !IsSpace(s[|s| - |l|]);
      r
  }

  /** What `strip` leaves is a slice of `s`, so every character it keeps comes from `s`. */
  lemma StripChars(s: string)
    ensures forall k :: 0 <= k < |Strip(s)| ==> Strip(s)[k] in s
  {
    var l := TrimLeft(s);
    var r := TrimRight(l);
    TrimLeftSlice(s);
    TrimRightSlice(l);
    forall k | 0 <= k < |r| ensures r[k] in s {
      assert r[k] == l[k] == s[|s| - |l| + k];
    }
  }

  /** `strip` changes nothing on a string that is already stripped. */
  lemma StripStripped(s: string)
    requires IsStripped(s)
    ensures Strip(s) == s
  {
  }

  /** One whitespace character on each side of a stripped string is all `strip` removes. */
  lemma StripSurrounded(b: string, c1: char, c2: char)
    requires IsSpace(c1) && IsSpace(c2) && IsStripped(b)
    ensures Strip([c1] + b + [c2]) == b
  {
    var s := [c1] + b + [c2];
    var t := b + [c2];
    assert s[1..] == t;
    assert TrimLeft(s) == TrimLeft(t);
    if b == [] {
      assert t[1..] == [];
      assert TrimLeft(t) == TrimLeft([]);
    } else {
      assert t[0] == b[0];
      assert TrimLeft(t) == t;
      assert t[..|t| - 1] == b;
      assert TrimRight(t) == TrimRight(b);
    }
  }

  function LowerChar(c: char): (d: char)
    ensures IsUpper(c) ==> IsLowerLetter(d) && d as int == c as int + 32
    ensures !IsUpper(c) ==> d == c
  {
    if IsUpper(c) then (c as int + 32) as char else c
  }

  /** `s.lower()` for the ASCII letters: character by character. */
  function Lower(s: string): (r: string)
    ensures |r| == |s|
    ensures forall i :: 0 <= i < |s| ==> r[i] == LowerChar(s[i])
  {
    seq(|s|, i requires 0 <= i < |s| => LowerChar(s[i]))
  }

  /** `pat` occurs in `s` starting at index `i`. */
  predicate OccursAt(s: string, pat: string, i: int) {
    0 <= i && i + |pat| <= |s| && s[i..i + |pat|] == pat
  }

  /** `s.find(pat, from)`: the least index at or after `from` where `pat` occurs. */
  function IndexFrom(s: string, pat: string, from: nat): (r: Option<nat>)
    ensures r.Some? ==> from <= r.value && OccursAt(s, pat, r.value)
    ensures r.Some? ==> forall k :: from <= k < r.value ==> !OccursAt(s, pat, k)
    ensures r.None? ==> forall k :: from <= k ==> !OccursAt(s, pat, k)
    decreases |s| - from
  {
    if from + |pat| > |s| then None
    else if s[from..from + |pat|] == pat then Some(from)
    else IndexFrom(s, pat, from + 1)
  }

  /** `pat in s`. */
  predicate Contains(s: string, pat: string) {
    IndexFrom(s, pat, 0).Some?
  }

  /** `Contains` is the existence of an occurrence. */
  lemma ContainsIff(s: string, pat: string)
    ensures Contains(s, pat) <==> exists k :: OccursAt(s, pat, k)
  {
    if !Contains(s, pat) {
      assert forall k :: 0 <= k ==> !OccursAt(s, pat, k);
    }
  }

  lemma ContainsAt(s: string, pat: string, k: int)
    requires OccursAt(s, pat, k)
    ensures Contains(s, pat)
  {
    ContainsIff(s, pat);
  }

  /** `find` returns the first occurrence at or after `from`. */
  lemma IndexFromAt(s: string, pat: string, from: nat, k: nat)
    requires from <= k && OccursAt(s, pat, k)
    requires forall m :: from <= m < k ==> !OccursAt(s, pat, m)
    ensures IndexFrom(s, pat, from) == Some(k)
  {
    var r := IndexFrom(s, pat, from);
    assert r.Some?;
    assert !(r.value < k);
  }

  /** A pattern holding a character that the text lacks occurs nowhere in it. */
  lemma AbsentCharNoOccurrence(s: string, pat: string, p: nat)
    requires p < |pat| && forall m :: 0 <= m < |s| ==> s[m] != pat[p]
    ensures forall k :: !OccursAt(s, pat, k)
  {
    forall k ensures !OccursAt(s, pat, k) {
      if 0 <= k && k + |pat| <= |s| {
        assert s[k..k + |pat|][p] == s[k + p];
      }
    }
  }

  /** An occurrence in a slice is an occurrence in the whole string. */
  lemma OccursInSlice(s: string, pat: string, lo: int, hi: int, k: int)
    requires 0 <= lo <= hi <= |s|
    requires OccursAt(s[lo..hi], pat, k)
    ensures OccursAt(s, pat, lo + k)
  {
    forall j | 0 <= j < |pat| ensures s[lo + k + j] == pat[j] {
      assert s[lo..hi][k..k + |pat|][j] == pat[j];
    }
    assert s[lo + k..lo + k + |pat|] == pat;
  }

  /** `s.rfind(c)`: the greatest index holding `c`. */
  function LastIndexOf(s: string, c: char): (r: Option<nat>)
    ensures r.Some? ==> r.value < |s| && s[r.value] == c
    ensures r.Some? ==> forall k :: r.value < k < |s| ==> s[k] != c
    ensures r.None? ==> forall k :: 0 <= k < |s| ==> s[k] != c
  {
    if s == [] then None
    else if s[|s| - 1] == c then Some(|s| - 1)
    else LastIndexOf(s[..|s| - 1], c)
  }

  /** `sep.join(parts)`. */
  function Join(sep: string, parts: seq<string>): (r: string)
  {
    if |parts| == 0 then ""
    else if |parts| == 1 then parts[0]
    else parts[0] + sep + Join(sep, parts[1..])
  }

  /** `"".join(parts)`. */
  function Concat(parts: seq<string>): string
    decreases |parts|
  {
    if parts == [] then "" else parts[0] + Concat(parts[1..])
  }

  /** `Concat` read from the back: the last part comes last. */
  lemma {:induction false} ConcatLast(parts: seq<string>)
    requires parts != []
    ensures Concat(parts) == Concat(parts[..|parts| - 1]) + parts[|parts| - 1]
    decreases |parts|
  {
    if |parts| == 1 {
      assert parts[1..] == [];
      assert parts[..0] == [];
    } else {
      var tail := parts[1..];
      ConcatLast(tail);
      var init := parts[..|parts| - 1];
      assert init[0] == parts[0];
      assert init[1..] == tail[..|tail| - 1];
    }
  }

  /** `"".join(f(x) for x in xs)`: the images of the elements, in order, concatenated. */
  function ConcatMap(f: string -> string, xs: seq<string>): string {
    Concat(seq(|xs|, i requires 0 <= i < |xs| => f(xs[i])))
  }

  /** `ConcatMap` read from the back: the last element's image comes last. */
  lemma ConcatMapLast(f: string -> string, xs: seq<string>)
    requires xs != []
    ensures ConcatMap(f, xs) == ConcatMap(f, xs[..|xs| - 1]) + f(xs[|xs| - 1])
  {
    var images := seq(|xs|, i requires 0 <= i < |xs| => f(xs[i]));
    var init := xs[..|xs| - 1];
    ConcatLast(images);
    assert images[..|images| - 1] == seq(|init|, i requires 0 <= i < |init| => f(init[i]));
  }

  /** `s.split(sep)` for a one-character separator: the pieces between the
      occurrences of `sep`, never none. */
  function Split(s: string, sep: char): (parts: seq<string>)
    ensures |parts| >= 1
    decreases |s|
  {
    match IndexFrom(s, [sep], 0)
    case None => [s]
    case Some(i) => [s[..i]] + Split(s[i + 1..], sep)
  }

  /** No piece of a split holds the separator, and joining the pieces back with it
      gives the text again. */
  lemma {:induction false} SplitPieces(s: string, sep: char)
    ensures forall p :: p in Split(s, sep) ==> sep !in p
    ensures Join([sep], Split(s, sep)) == s
    decreases |s|
  {
    match IndexFrom(s, [sep], 0)
    case None =>
      forall k | 0 <= k < |s| ensures s[k] != sep { assert !OccursAt(s, [sep], k); }
    case Some(i) =>
      assert s[i] == sep by { assert s[i..i + 1] == [sep]; }
      forall k | 0 <= k < i ensures s[k] != sep { assert !OccursAt(s, [sep], k); }
      var rest := Split(s[i + 1..], sep);
      SplitPieces(s[i + 1..], sep);
      assert Split(s, sep) == [s[..i]] + rest;
      assert s == s[..i] + [sep] + s[i + 1..];
  }

  /** The last piece is a suffix of the text, the whole text when there is one piece. */
  lemma {:induction false} SplitLastSuffix(s: string, sep: char)
    ensures var parts := Split(s, sep);
            var last := parts[|parts| - 1];
            |last| <= |s| && s[|s| - |last|..] == last && (|parts| == 1 ==> last == s)
    decreases |s|
  {
    var parts := Split(s, sep);
    if |parts| == 1 {
      var _ := SplitCases(s, sep);
      assert s[0..] == s;
    } else {
      var i := SplitCases(s, sep);
      var t := s[i + 1..];
      SplitLastSuffix(t, sep);
      var rest := Split(t, sep);
      var last := rest[|rest| - 1];
      assert parts[|parts| - 1] == last;
      assert t[|t| - |last|..] == last;
      SuffixOfSuffix(s, i + 1, |t| - |last|);
      assert |s| - |last| == i + 1 + (|t| - |last|);
    }
  }

  /** One piece is the whole text; otherwise the first separator at `i` splits off the
      first piece. */
  lemma SplitCases(s: string, sep: char) returns (i: nat)
    ensures |Split(s, sep)| == 1 ==> Split(s, sep) == [s]
    ensures |Split(s, sep)| > 1 ==> i < |s| && s[i] == sep && Split(s, sep) == [s[..i]] + Split(s[i + 1..], sep)
  {
    match IndexFrom(s, [sep], 0)
    case None =>
      i := 0;
    case Some(j) =>
      assert s[j..j + 1] == [sep];
      i := j;
  }

  /** A suffix of a suffix is a suffix. */
  lemma SuffixOfSuffix(s: string, a: nat, b: nat)
    requires a <= |s| && b <= |s| - a
    ensures s[a..][b..] == s[a + b..]
  {
  }

  /** When the text ends in a non-whitespace character and the separator is whitespace,
      the last piece is not blank. */
  lemma LastPieceNotBlank(s: string, sep: char)
    requires s != [] && !IsSpace(s[|s| - 1]) && IsSpace(sep)
    ensures var parts := Split(s, sep);
            !IsBlank(parts[|parts| - 1])
  {
    var parts := Split(s, sep);
    var last := parts[|parts| - 1];
    SplitLastSuffix(s, sep);
    SplitLastAfterSep(s, sep);
    assert |last| >= 1 by {
      if |parts| == 1 {
        assert last == s;
      } else {
        assert s[|s| - |last| - 1] == sep;
      }
    }
    LastOfSuffix(s, last);
  }

  /** A non-empty suffix ends where the text ends. */
  lemma LastOfSuffix(s: string, t: string)
    requires 1 <= |t| <= |s| && s[|s| - |t|..] == t
    ensures t[|t| - 1] == s[|s| - 1]
  {
  }

  /** With several pieces, a separator comes just before the last one. */
  lemma {:induction false} SplitLastAfterSep(s: string, sep: char)
    ensures var parts := Split(s, sep);
            var last := parts[|parts| - 1];
            |parts| > 1 ==> |last| < |s| && s[|s| - |last| - 1] == sep
    decreases |s|
  {
    var parts := Split(s, sep);
    if |parts| > 1 {
      var i := SplitCases(s, sep);
      var t := s[i + 1..];
      var rest := Split(t, sep);
      var last := rest[|rest| - 1];
      assert parts[|parts| - 1] == last;
      SplitLastSuffix(t, sep);
      if |rest| == 1 {
        assert |last| == |t|;
      } else {
        SplitLastAfterSep(t, sep);
        assert s[|s| - |last| - 1] == t[|t| - |last| - 1];
      }
    }
  }



  /** `s.strip().split('\n')`: the lines of the stripped text, at least one. */
  function StrippedLines(s: string): (lines: seq<string>)
    ensures |lines| >= 1
  {
    Split(Strip(s), '\n')
  }

  /** `s[n:]`, which is empty when `s` is shorter than `n`. */
  function DropFrom(s: string, n: nat): (r: string)
    ensures |s| >= n ==> r == s[n..]
    ensures |s| < n ==> r == ""
  {
    if |s| >= n then s[n..] else ""
  }

  /** `[f(x) for x in xs if p(x)]`. */
  function FilterMap(p: string -> bool, f: string -> string, xs: seq<string>): (r: seq<string>)
    ensures |r| <= |xs|
    decreases |xs|
  {
    if xs == [] then [] else (if p(xs[0]) then [f(xs[0])] else []) + FilterMap(p, f, xs[1..])
  }

  /** `FilterMap` read from the back: the last element, if kept, comes last. */
  lemma {:induction false} FilterMapLast(p: string -> bool, f: string -> string, xs: seq<string>)
    requires xs != []
    ensures FilterMap(p, f, xs) == FilterMap(p, f, xs[..|xs| - 1]) + (if p(xs[|xs| - 1]) then [f(xs[|xs| - 1])] else [])
    decreases |xs|
  {
    if |xs| == 1 {
      assert xs[1..] == [];
      assert xs[..0] == [];
    } else {
      var tail := xs[1..];
      FilterMapLast(p, f, tail);
      var init := xs[..|xs| - 1];
      assert init[0] == xs[0];
      assert init[1..] == tail[..|tail| - 1];
    }
  }

  /** Splitting what `Join` glued back together gives the parts again, provided no
      part holds the separator. */
  lemma {:induction false} SplitJoin(parts: seq<string>, sep: char)
    requires |parts| >= 1
    requires forall p :: p in parts ==> sep !in p
    ensures Split(Join([sep], parts), sep) == parts
  {
    var p := parts[0];
    assert p in parts;
    if |parts| == 1 {
      SplitNoSep(p, sep);
    } else {
      var rest := parts[1..];
      assert forall q :: q in rest ==> q in parts;
      SplitJoin(rest, sep);
      SplitAfterPiece(p, Join([sep], rest), sep);
    }
  }

  /** A text without the separator splits into itself. */
  lemma SplitNoSep(p: string, sep: char)
    requires sep !in p
    ensures Split(p, sep) == [p]
  {
    assert forall k :: 0 <= k < |p| ==> !OccursAt(p, [sep], k) by {
      forall k | 0 <= k < |p| ensures !OccursAt(p, [sep], k) {
        assert p[k..k + 1] == [p[k]];
        assert p[k] in p;
      }
    }
  }

  /** A piece without the separator, then the separator, splits off as the first part. */
  lemma SplitAfterPiece(p: string, t: string, sep: char)
    requires sep !in p
    ensures Split(p + [sep] + t, sep) == [p] + Split(t, sep)
  {
    var s := p + [sep] + t;
    assert forall k :: 0 <= k < |p| ==> !OccursAt(s, [sep], k) by {
      forall k | 0 <= k < |p| ensures !OccursAt(s, [sep], k) {
        assert s[k] == p[k];
        assert p[k] in p;
        assert s[k..k + 1] == [s[k]];
      }
    }
    assert s[|p|..|p| + 1] == [sep];
    assert OccursAt(s, [sep], |p|);
    assert s[|p| + 1..] == t;
    assert s[..|p|] == p;
  }

  /** `s.split(sep)` for a separator string: the pieces between the occurrences found
      scanning left to right; more than one piece exactly when `sep` occurs. */
  function SplitOn(s: string, sep: string): (parts: seq<string>)
    requires sep != []
    ensures |parts| >= 1
    ensures |parts| > 1 <==> Contains(s, sep)
    ensures !Contains(parts[0], sep)
    decreases |s|
  {
    match IndexFrom(s, sep, 0)
    case None => [s]
    case Some(i) =>
      var head := s[..i];
      forall k ensures !OccursAt(head, sep, k) {
        if OccursAt(head, sep, k) { OccursInSlice(s, sep, 0, i, k); }
      }
      [head] + SplitOn(s[i + |sep|..], sep)
  }

  /** Joining the pieces back with the separator gives the text again. */
  lemma {:induction false} SplitOnJoin(s: string, sep: string)
    requires sep != []
    ensures Join(sep, SplitOn(s, sep)) == s
    decreases |s|
  {
    match IndexFrom(s, sep, 0)
    case None =>
    case Some(i) =>
      var t := s[i + |sep|..];
      SplitOnJoin(t, sep);
      var parts := [s[..i]] + SplitOn(t, sep);
      assert SplitOn(s, sep) == parts;
      assert parts[1..] == SplitOn(t, sep);
      assert s == s[..i] + sep + t;
  }

  /** Every character of a piece comes from the text. */
  lemma {:induction false} SplitOnChars(s: string, sep: string)
    requires sep != []
    ensures forall k, m :: 0 <= k < |SplitOn(s, sep)| && 0 <= m < |SplitOn(s, sep)[k]| ==> SplitOn(s, sep)[k][m] in s
    decreases |s|
  {
    match IndexFrom(s, sep, 0)
    case None =>
    case Some(i) =>
      var t := s[i + |sep|..];
      var rest := SplitOn(t, sep);
      SplitOnChars(t, sep);
      var parts := [s[..i]] + rest;
      assert SplitOn(s, sep) == parts;
      forall k, m | 0 <= k < |parts| && 0 <= m < |parts[k]| ensures parts[k][m] in s {
        if k == 0 {
          assert parts[k][m] == s[m];
        } else {
          var c := rest[k - 1][m];
          assert c in t;
          var j :| 0 <= j < |t| && t[j] == c;
          assert s[i + |sep| + j] == c;
        }
      }
  }

  function DigitChar(d: nat): (c: char)
    requires d < 10
    ensures IsDigit(c) && c as int - '0' as int == d
  {
    (d + '0' as int) as char
  }

  /** `str(n)` for a natural number: decimal digits, most significant first. */
  function NatToString(n: nat): (r: string)
    ensures |r| >= 1
    ensures forall i :: 0 <= i < |r| ==> IsDigit(r[i])
  {
    if n < 10 then [DigitChar(n)] else NatToString(n / 10) + [DigitChar(n % 10)]
  }

  /** The number a string of decimal digits denotes. */
  function DigitsValue(s: string): nat
    requires forall i :: 0 <= i < |s| ==> IsDigit(s[i])
  {
    if s == [] then 0
    else assert IsDigit(s[|s| - 1]); DigitsValue(s[..|s| - 1]) * 10 + (s[|s| - 1] as int - '0' as int)
  }

  /** Reading back what `NatToString` wrote gives the number again. */
  lemma {:induction false} NatToStringRoundTrip(n: nat)
    ensures DigitsValue(NatToString(n)) == n
  {
    if n >= 10 {
      var p := NatToString(n / 10);
      NatToStringRoundTrip(n / 10);
      assert (p + [DigitChar(n % 10)])[..|p|] == p;
    }
  }

  /** Distinct numbers are written differently. */
  lemma NatToStringInjective(a: nat, b: nat)
    requires NatToString(a) == NatToString(b)
    ensures a == b
  {
    NatToStringRoundTrip(a);
    NatToStringRoundTrip(b);
  }

  /** `str(i)` for any integer. */
  function IntToString(i: int): (r: string)
    ensures |r| >= 1
  {
    if i < 0 then "-" + NatToString(-i) else NatToString(i)
  }

  /** `s.replace(pat, "")`: every occurrence found scanning left to right is dropped. */
  function RemoveAll(s: string, pat: string): (r: string)
    requires pat != []
    ensures |r| <= |s|
    ensures !Contains(s, pat) ==> r == s
    decreases |s|
  {
    match IndexFrom(s, pat, 0)
    case None => s
    case Some(i) => s[..i] + RemoveAll(s[i + |pat|..], pat)
  }

  /** `''.join(c for c in s if c.isdigit())`. */
  function DigitsOf(s: string): (r: string)
    ensures |r| <= |s|
    ensures forall i :: 0 <= i < |r| ==> IsDigit(r[i])
  {
    if s == [] then ""
    else (if IsDigit(s[0]) then [s[0]] else "") + DigitsOf(s[1..])
  }

  /** `s.startswith(p)`. */
  predicate StartsWith(s: string, p: string) {
    |p| <= |s| && s[..|p|] == p
  }

  /** `s.endswith(p)`. */
  predicate EndsWith(s: string, p: string) {
    |p| <= |s| && s[|s| - |p|..] == p
  }
}
