/**
  The PHP string built-ins the resolver relies on, on byte strings.

  A Dafny `char` stands for one byte of a PHP string, so `|s|` is PHP's
  `strlen($s)`.  The characterisation PHP's manual gives for each built-in
  is stated in the function's own contract (`Strpos`, `StrstrBefore`) or,
  for the trimming functions, in the `*Shape` lemma beside it.
 */
module PhpStrings {
  import opened Wrappers

  /** The characters `trim()` strips when it is given no character list: " \t\n\r\0\x0B". */
  predicate IsTrimChar(c: char) {
    c == ' ' || c == '\t' || c == '\n' || c == '\r' || c == '\0' || c == '\U{000B}'
  }

  /** True when every character of `s` is one `trim()` strips. */
  ghost predicate AllTrimChars(s: string) {
    forall i :: 0 <= i < |s| ==> IsTrimChar(s[i])
  }

  /** `ltrim($s)`: `s` without its leading trim characters. */
  function TrimLeft(s: string): (r: string)
    ensures |r| <= |s|
  {
    if |s| > 0 && IsTrimChar(s[0]) then TrimLeft(s[1..]) else s
  }

  /** `rtrim($s)`: `s` without its trailing trim characters. */
  function TrimRight(s: string): (r: string)
    ensures |r| <= |s|
  {
    if |s| > 0 && IsTrimChar(s[|s| - 1]) then TrimRight(s[..|s| - 1]) else s
  }

  /** `trim($s)`: `s` without its leading and trailing trim characters. */
  function Trim(s: string): (r: string)
    ensures |r| <= |s|
  {
    TrimRight(TrimLeft(s))
  }

  /** `rtrim($s, $c)` for a single character `c`: `s` without its trailing run of `c`. */
  function RTrimChar(s: string, c: char): (r: string)
    ensures |r| <= |s|
  {
    if |s| > 0 && s[|s| - 1] == c then RTrimChar(s[..|s| - 1], c) else s
  }

  /** `ltrim` keeps a suffix, drops only trim characters, and stops at the first other one. */
  lemma {:induction false} TrimLeftShape(s: string)
    ensures var r := TrimLeft(s);
      && r == s[|s| - |r|..]
      && AllTrimChars(s[..|s| - |r|])
      && (r == [] || !IsTrimChar(r[0]))
  {
    if |s| > 0 && IsTrimChar(s[0]) {
      TrimLeftShape(s[1..]);
      var r := TrimLeft(s);
      assert s[1..][|s| - 1 - |r|..] == s[|s| - |r|..];
      assert s[..|s| - |r|] == [s[0]] + s[1..][..|s| - 1 - |r|];
    }
  }

  /** `rtrim` keeps a prefix, drops only trim characters, and stops at the last other one. */
  lemma {:induction false} TrimRightShape(s: string)
    ensures var r := TrimRight(s);
      && r == s[..|r|]
      && AllTrimChars(s[|r|..])
      && (r == [] || !IsTrimChar(r[|r| - 1]))
  {
    if |s| > 0 && IsTrimChar(s[|s| - 1]) {
      var t := s[..|s| - 1];
      TrimRightShape(t);
      var r := TrimRight(s);
      assert t[..|r|] == s[..|r|];
      assert s[|r|..] == t[|r|..] + [s[|s| - 1]];
    }
  }

  /** `trim` leaves neither end a trim character, and gives "" exactly for all-blank input. */
  lemma TrimShape(s: string)
    ensures var r := Trim(s);
      && (r == [] || (!IsTrimChar(r[0]) && !IsTrimChar(r[|r| - 1])))
      && (r == [] <==> AllTrimChars(s))
  {
    var l := TrimLeft(s);
    TrimLeftShape(s);
    TrimRightShape(l);
    var r := TrimRight(l);
    if r != [] {
      assert r[0] == l[0];
    }
    if r == [] {
      assert l[|r|..] == l;
      assert s[..|s| - |l|] == s;
    } else {
      var k := |s| - |l|;
      assert s[k] == l[0] && !IsTrimChar(s[k]);
    }
  }

  /** `rtrim($s, $c)` keeps a prefix, drops only `c`, and leaves no `c` at the end. */
  lemma {:induction false} RTrimCharShape(s: string, c: char)
    ensures var r := RTrimChar(s, c);
      && r == s[..|r|]
      && (forall i :: |r| <= i < |s| ==> s[i] == c)
      && (r == [] || r[|r| - 1] != c)
  {
    if |s| > 0 && s[|s| - 1] == c {
      var t := s[..|s| - 1];
      RTrimCharShape(t, c);
      var r := RTrimChar(s, c);
      assert t[..|r|] == s[..|r|];
      forall i | |r| <= i < |s|
        ensures s[i] == c
      {
        if i < |s| - 1 {
          assert t[i] == s[i];
        }
      }
    }
  }

  /** PHP's boolean conversion of a string: only "" and "0" are falsy. */
  predicate IsTruthy(s: string) {
    s != "" && s != "0"
  }

  /**
    `empty($v)` for a configuration value that is either NULL (`None`) or a
    string: NULL, "" and "0" are empty.
   */
  predicate IsEmptyValue(v: Option<string>) {
    v.None? || !IsTruthy(v.value)
  }

  /** `str_starts_with($s, $prefix)`. */
  predicate StartsWith(s: string, prefix: string) {
    |prefix| <= |s| && s[..|prefix|] == prefix
  }

  /** `str_ends_with($s, $c)` for a one-character needle. */
  predicate EndsWithChar(s: string, c: char) {
    |s| > 0 && s[|s| - 1] == c
  }

  /** `strpos($s, $c)`: the index of the first `c`, or FALSE (`None`) when there is none. */
  function Strpos(s: string, c: char): (r: Option<nat>)
    ensures r.None? <==> c !in s
    ensures r.Some? ==> r.value < |s| && s[r.value] == c && c !in s[..r.value]
  {
    if |s| == 0 then None
    else if s[0] == c then Some(0)
    else
      match Strpos(s[1..], c)
      case None => None
      case Some(i) =>
        assert s[..i + 1] == [s[0]] + s[1..][..i];
        Some(i + 1)
  }

  /** `strstr($s, $c, TRUE)`: the part of `s` before the first `c`, or FALSE (`None`). */
  function StrstrBefore(s: string, c: char): (r: Option<string>)
    ensures r.None? <==> c !in s
    ensures r.Some? ==> |r.value| < |s| && r.value == s[..|r.value|] && s[|r.value|] == c && c !in r.value
  {
    match Strpos(s, c)
    case None => None
    case Some(i) => Some(s[..i])
  }

  /** `trim` leaves a string alone when neither end is a trim character. */
  lemma TrimOfTrimmed(s: string)
    requires s == [] || (!IsTrimChar(s[0]) && !IsTrimChar(s[|s| - 1]))
    ensures Trim(s) == s
  {
  }

  /** The strings `trim` leaves alone are exactly those with no trim character at either end. */
  lemma TrimFixedPoints(s: string)
    ensures Trim(s) == s <==> s == [] || (!IsTrimChar(s[0]) && !IsTrimChar(s[|s| - 1]))
  {
    TrimShape(s);
    if s == [] || (!IsTrimChar(s[0]) && !IsTrimChar(s[|s| - 1])) {
      TrimOfTrimmed(s);
    }
  }

  /** `trim` is idempotent. */
  lemma TrimIdempotent(s: string)
    ensures Trim(Trim(s)) == Trim(s)
  {
    TrimShape(s);
    TrimOfTrimmed(Trim(s));
  }

  /** `trim` removes only trim characters, and only from the two ends. */
  lemma TrimDecomposes(s: string)
    ensures exists k ::
              && 0 <= k <= |s| - |Trim(s)|
              && s[k..k + |Trim(s)|] == Trim(s)
              && AllTrimChars(s[..k]) && AllTrimChars(s[k + |Trim(s)|..])
  {
    var l := TrimLeft(s);
    var k := |s| - |l|;
    var r := TrimRight(l);
    TrimLeftShape(s);
    TrimRightShape(l);
    assert s[k..] == l;
    assert s[k..k + |r|] == l[..|r|];
    assert s[k + |r|..] == l[|r|..];
  }
}
