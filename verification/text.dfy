/** The few JavaScript string primitives the task list relies on:
    `String.prototype.trim`, `String.prototype.split` on a one-character
    separator, `Number` and `String` on decimal naturals, and
    `String.prototype.padStart`. Strings are sequences of Unicode scalar values. */
module Text {

  /** WhiteSpace and LineTerminator code points of ECMAScript: exactly the
      characters `trim` removes (the Zs category is listed in full). */
  predicate IsSpace(c: char) {
    || c == '\t' || c == '\U{B}' || c == '\U{C}' || c == ' ' || c == '\U{A0}' || c == '\U{FEFF}'
    || c == '\U{1680}' || ('\U{2000}' <= c <= '\U{200A}') || c == '\U{202F}' || c == '\U{205F}'
    || c == '\U{3000}'
    || c == '\n' || c == '\r' || c == '\U{2028}' || c == '\U{2029}'
  }

  /** Every character of `s` is white space (vacuously true of ""). */
  predicate Blank(s: string) {
    forall i :: 0 <= i < |s| ==> IsSpace(s[i])
  }

  /** The index of the first non-white-space character of `s` at or after
      `lo` (|s| if there is none). */
  function SkipSpaces(s: string, lo: nat): (a: nat)
    requires lo <= |s|
    ensures lo <= a <= |s|
    ensures forall i :: lo <= i < a ==> IsSpace(s[i])
    ensures a == |s| || !IsSpace(s[a])
    decreases |s| - lo
  {
    if lo < |s| && IsSpace(s[lo]) then SkipSpaces(s, lo + 1) else lo
  }

  /** The end of `s[lo..hi]` once its trailing white space is dropped. */
  function SkipSpacesBack(s: string, lo: nat, hi: nat): (b: nat)
    requires lo <= hi <= |s|
    ensures lo <= b <= hi
    ensures forall i :: b <= i < hi ==> IsSpace(s[i])
    ensures b == lo || !IsSpace(s[b - 1])
    decreases hi
  {
    if lo < hi && IsSpace(s[hi - 1]) then SkipSpacesBack(s, lo, hi - 1) else hi
  }

  /** `String.prototype.trim`: the slice of `s` left once its leading and its
      trailing white space are dropped. */
  function Trim(s: string): (r: string)
    ensures var a := SkipSpaces(s, 0);
      && a + |r| <= |s|
      && r == s[a..a + |r|]
      && (forall i :: 0 <= i < a ==> IsSpace(s[i]))
      && (forall i :: a + |r| <= i < |s| ==> IsSpace(s[i]))
    ensures r == [] || (!IsSpace(r[0]) && !IsSpace(r[|r| - 1]))
  {
    var a := SkipSpaces(s, 0);
    s[a..SkipSpacesBack(s, a, |s|)]
  }

  /** A string trims to "" exactly when it consists of white space only. */
  lemma {:induction false} TrimEmptyIffBlank(s: string)
    ensures Trim(s) == [] <==> Blank(s)
  {
    var a := SkipSpaces(s, 0);
    if Trim(s) != [] {
      assert !IsSpace(s[a]) by {
        assert Trim(s)[0] == s[a];
      }
    }
  }

  /** Trimming twice is trimming once. */
  lemma {:induction false} TrimIdempotent(s: string)
    ensures Trim(Trim(s)) == Trim(s)
  {
    var t := Trim(s);
    assert SkipSpaces(t, 0) == 0;
    assert SkipSpacesBack(t, 0, |t|) == |t|;
  }

  // ---------------------------------------------------------------- split

  /** `String.prototype.split` with a one-character separator: the maximal
      separator-free pieces of `s`, in order; "" splits into [""]. */
  function Split(s: string, sep: char): (r: seq<string>)
    ensures |r| >= 1
    ensures forall k :: 0 <= k < |r| ==> sep !in r[k]
    ensures Join(r, sep) == s
    decreases |s|
  {
    if |s| == 0 then [""]
    else if s[0] == sep then [""] + Split(s[1..], sep)
    else
      var rest := Split(s[1..], sep);
      JoinConsChar(s[0], rest, sep);
      [[s[0]] + rest[0]] + rest[1..]
  }

  /** The pieces glued back together with the separator between them. */
  function Join(parts: seq<string>, sep: char): string
    requires |parts| >= 1
  {
    if |parts| == 1 then parts[0] else parts[0] + [sep] + Join(parts[1..], sep)
  }

  lemma {:induction false} JoinConsChar(c: char, parts: seq<string>, sep: char)
    requires |parts| >= 1
    ensures Join([[c] + parts[0]] + parts[1..], sep) == [c] + Join(parts, sep)
  {
    var q := [[c] + parts[0]] + parts[1..];
    assert q[1..] == parts[1..];
  }

  /** Splitting undoes joining pieces that do not contain the separator. */
  lemma {:induction false} SplitJoin(parts: seq<string>, sep: char)
    requires |parts| >= 1
    requires forall k :: 0 <= k < |parts| ==> sep !in parts[k]
    ensures Split(Join(parts, sep), sep) == parts
    decreases |parts|, |parts[0]|
  {
    var p := parts[0];
    if |p| == 0 {
      if |parts| == 1 {
      } else {
        var s := Join(parts, sep);
        assert s == [sep] + Join(parts[1..], sep);
        assert s[1..] == Join(parts[1..], sep);
        SplitJoin(parts[1..], sep);
        assert [""] + parts[1..] == parts;
      }
    } else {
      var tail := [p[1..]] + parts[1..];
      assert tail[1..] == parts[1..];
      forall k | 0 <= k < |tail|
        ensures sep !in tail[k]
      {
        if k == 0 {
          assert forall x :: x in p[1..] ==> x in p;
        } else {
          assert tail[k] == parts[k];
        }
      }
      JoinConsChar(p[0], tail, sep);
      assert [[p[0]] + tail[0]] + tail[1..] == parts by {
        assert [p[0]] + p[1..] == p;
      }
      var s := Join(parts, sep);
      assert s == [p[0]] + Join(tail, sep);
      assert s[0] == p[0] && s[0] != sep;
      assert s[1..] == Join(tail, sep);
      SplitJoin(tail, sep);
    }
  }

  /** Two separator-free pieces joined by the separator split back apart. */
  lemma SplitPair(a: string, b: string, sep: char)
    requires sep !in a && sep !in b
    ensures Split(a + [sep] + b, sep) == [a, b]
  {
    var parts := [a, b];
    assert parts[1..] == [b];
    assert Join(parts, sep) == a + [sep] + b;
    SplitJoin(parts, sep);
  }

  // ---------------------------------------------------------------- numbers

  predicate IsDigit(c: char) {
    '0' <= c <= '9'
  }

  /** A (possibly empty) string of decimal digits. */
  predicate IsDigits(s: string) {
    forall i :: 0 <= i < |s| ==> IsDigit(s[i])
  }

  function DigitValue(c: char): (d: nat)
    requires IsDigit(c)
    ensures d < 10
  {
    (c as int) - ('0' as int)
  }

  function DigitChar(d: nat): (c: char)
    requires d < 10
    ensures IsDigit(c) && DigitValue(c) == d
  {
    (('0' as int) + d) as char
  }

  /** `Number` on a string of decimal digits (leading zeros allowed). */
  function ParseNat(s: string): nat
    requires IsDigits(s)
  {
    if |s| == 0 then 0 else ParseNat(s[..|s| - 1]) * 10 + DigitValue(s[|s| - 1])
  }

  /** `String` on a natural number: its shortest decimal numeral. */
  function NatToString(n: nat): (r: string)
    ensures |r| >= 1 && IsDigits(r)
    ensures ParseNat(r) == n
    ensures r[0] == '0' ==> r == "0"
    ensures |r| == 1 <==> n < 10
    ensures n < 100 ==> |r| <= 2
    decreases n
  {
    if n < 10 then [DigitChar(n)]
    else
      var front := NatToString(n / 10);
      var r := front + [DigitChar(n % 10)];
      assert r[..|r| - 1] == front;
      r
  }

  /** The numerals of 0..99 digit by digit. */
  lemma Numeral(n: nat)
    requires n < 100
    ensures n < 10 ==> NatToString(n) == ["0123456789"[n]]
    ensures 10 <= n ==> NatToString(n) == ["0123456789"[n / 10], "0123456789"[n % 10]]
  {
    if n >= 10 {
      assert NatToString(n / 10) == [DigitChar(n / 10)];
    }
  }

  /** `String.prototype.padStart(width, fill)` with a one-character fill. */
  function PadStart(s: string, width: nat, fill: char): (r: string)
    ensures |r| == if |s| >= width then |s| else width
    ensures r[|r| - |s|..] == s
    ensures forall i :: 0 <= i < |r| - |s| ==> r[i] == fill
  {
    if |s| >= width then s else seq(width - |s|, _ => fill) + s
  }
}
