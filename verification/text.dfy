/** The few string operations of Python's standard library that the scripts
    rely on: `strip` (on `str` and on `bytes`), `lower`, and the code-point
    lexicographic order that `sorted` uses on `str`. */
module Text {

  /** An octet of a byte string. */
  newtype byte = b: int | 0 <= b < 256

  /** `str.isspace()` as Python defines it: the characters that `str.strip()`
      removes when called without arguments. */
  predicate IsSpaceChar(c: char) {
    || ('\t' <= c <= '\r')
    || ('\U{1C}' <= c <= ' ')
    || c == '\U{85}' || c == '\U{A0}' || c == '\U{1680}'
    || ('\U{2000}' <= c <= '\U{200A}')
    || c == '\U{2028}' || c == '\U{2029}' || c == '\U{202F}'
    || c == '\U{205F}' || c == '\U{3000}'
  }

  /** The ASCII whitespace that `bytes.strip()` removes: space, \t \n \v \f \r. */
  predicate IsSpaceByte(b: byte) {
    b == 32 || 9 <= b <= 13
  }

  /** `str.strip()`: removes `str.isspace()` characters at both ends. */
  function StripText(s: string): string {
    TrimEndText(TrimStartText(s))
  }

  function TrimStartText(s: string): string
    decreases |s|
  {
    if |s| == 0 || !IsSpaceChar(s[0]) then s else TrimStartText(s[1..])
  }

  function TrimEndText(s: string): string
    decreases |s|
  {
    if |s| == 0 || !IsSpaceChar(s[|s| - 1]) then s else TrimEndText(s[..|s| - 1])
  }

  /** `bytes.strip()`: removes ASCII whitespace at both ends. Python's `str`
      and `bytes` strips differ in what they remove, hence two definitions. */
  function StripBytes(s: seq<byte>): seq<byte> {
    TrimEndBytes(TrimStartBytes(s))
  }

  function TrimStartBytes(s: seq<byte>): seq<byte>
    decreases |s|
  {
    if |s| == 0 || !IsSpaceByte(s[0]) then s else TrimStartBytes(s[1..])
  }

  function TrimEndBytes(s: seq<byte>): seq<byte>
    decreases |s|
  {
    if |s| == 0 || !IsSpaceByte(s[|s| - 1]) then s else TrimEndBytes(s[..|s| - 1])
  }

  /** `lstrip`: what remains is a suffix of the input that does not start
      with whitespace, and everything removed is whitespace. */
  lemma {:induction false} TrimStartTextSpec(s: string)
    ensures var r := TrimStartText(s);
            && |r| <= |s| && r == s[|s| - |r|..]
            && (|r| > 0 ==> !IsSpaceChar(r[0]))
            && (forall i :: 0 <= i < |s| - |r| ==> IsSpaceChar(s[i]))
    decreases |s|
  {
    if |s| > 0 && IsSpaceChar(s[0]) {
      TrimStartTextSpec(s[1..]);
      assert forall i :: 1 <= i < |s| ==> s[1..][i - 1] == s[i];
    }
  }

  /** `rstrip`: what remains is a prefix of the input that does not end with
      whitespace, and everything removed is whitespace. */
  lemma {:induction false} TrimEndTextSpec(s: string)
    ensures var r := TrimEndText(s);
            && |r| <= |s| && r == s[..|r|]
            && (|r| > 0 ==> !IsSpaceChar(r[|r| - 1]))
            && (forall i :: |r| <= i < |s| ==> IsSpaceChar(s[i]))
    decreases |s|
  {
    if |s| > 0 && IsSpaceChar(s[|s| - 1]) {
      TrimEndTextSpec(s[..|s| - 1]);
    }
  }

  /** A string strips to nothing exactly when it is all whitespace; otherwise
      the stripped string neither starts nor ends with whitespace. */
  lemma StripTextSpec(s: string)
    ensures |StripText(s)| == 0 <==> forall i :: 0 <= i < |s| ==> IsSpaceChar(s[i])
    ensures |StripText(s)| > 0 ==> !IsSpaceChar(StripText(s)[0]) && !IsSpaceChar(StripText(s)[|StripText(s)| - 1])
  {
    var t := TrimStartText(s);
    TrimStartTextSpec(s);
    TrimEndTextSpec(t);
    var r := StripText(s);
    if |r| == 0 {
      assert |t| == 0;
    } else {
      assert r[0] == t[0];
      assert t[0] == s[|s| - |t|];
    }
  }

  /** Stripping twice is stripping once. */
  lemma StripTextIdempotent(s: string)
    ensures StripText(StripText(s)) == StripText(s)
  {
    StripTextSpec(s);
  }

  function LowerChar(c: char): char {
    if 'A' <= c <= 'Z' then (c as int + 32) as char else c
  }

  /** `str.lower()` restricted to the ASCII letters. */
  function Lower(s: string): (r: string)
    ensures |r| == |s|
    ensures forall i :: 0 <= i < |s| ==> r[i] == LowerChar(s[i])
  {
    seq(|s|, i requires 0 <= i < |s| => LowerChar(s[i]))
  }

  /** The case-insensitive test of `load_mappings`: a string lower-cases to
      `doi` exactly when it spells d, o, i in either case. */
  lemma LowerIsDoi(s: string)
    ensures Lower(s) == "doi" <==> |s| == 3 && s[0] in "dD" && s[1] in "oO" && s[2] in "iI"
  {
    if Lower(s) == "doi" {
      assert LowerChar(s[0]) == 'd' && LowerChar(s[1]) == 'o' && LowerChar(s[2]) == 'i';
    }
    if |s| == 3 && s[0] in "dD" && s[1] in "oO" && s[2] in "iI" {
      assert Lower(s) == [LowerChar(s[0]), LowerChar(s[1]), LowerChar(s[2])];
    }
  }

  /** Python's `<` on `str`: code-point lexicographic order, in which a proper
      prefix comes first. (Dafny's `<` on sequences is the proper-prefix
      relation only.) */
  predicate LexLess(a: string, b: string) {
    if |a| == 0 then |b| > 0
    else if |b| == 0 then false
    else if a[0] != b[0] then a[0] < b[0]
    else LexLess(a[1..], b[1..])
  }

  lemma {:induction false} LexTransitive(a: string, b: string, c: string)
    requires LexLess(a, b) && LexLess(b, c)
    ensures LexLess(a, c)
  {
    if |a| > 0 && a[0] == b[0] && b[0] == c[0] {
      LexTransitive(a[1..], b[1..], c[1..]);
    }
  }

  /** Any two distinct strings are ordered one way or the other. */
  lemma {:induction false} LexTotal(a: string, b: string)
    requires a != b
    ensures LexLess(a, b) || LexLess(b, a)
  {
    if |a| > 0 && |b| > 0 && a[0] == b[0] {
      assert a == [a[0]] + a[1..] && b == [b[0]] + b[1..];
      LexTotal(a[1..], b[1..]);
    }
  }

  /** `a <= b` on Python strings. */
  predicate LexLeq(a: string, b: string) {
    a == b || LexLess(a, b)
  }

  lemma LexLeqTransitive(a: string, b: string, c: string)
    requires LexLeq(a, b) && LexLeq(b, c)
    ensures LexLeq(a, c)
  {
    if a != b && b != c {
      LexTransitive(a, b, c);
    }
  }

  /** `not a < b` means `b <= a`. */
  lemma LexNotLess(a: string, b: string)
    requires !LexLess(a, b)
    ensures LexLeq(b, a)
  {
    if a != b {
      LexTotal(a, b);
    }
  }
}
