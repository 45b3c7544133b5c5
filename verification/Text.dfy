/** The byte-string operations of the image readers: decimal numbers, lines and white-space tokens. */
module Text {
  import opened Base

  const NEWLINE: byte := 10
  const SPACE: byte := 32
  const HASH: byte := 35

  predicate IsSpace(c: byte) { c == 32 || 9 <= c <= 13 }

  predicate IsDigit(c: byte) { 48 <= c <= 57 }

  /** Decimal digits of a number, as an f-string writes them. */
  function Digits(n: nat): (d: Bytes)
    ensures d != [] && forall k | 0 <= k < |d| :: IsDigit(d[k])
  {
    if n < 10 then [(48 + n) as byte] else Digits(n / 10) + [(48 + n % 10) as byte]
  }

  /** The digits of `int(b"...")`: single underscores are allowed between them. */
  function ParseDigits(b: Bytes): Option<nat> {
    if b == [] || !IsDigit(b[|b| - 1]) then None
    else
      var d := b[|b| - 1] as nat - 48;
      if |b| == 1 then Some(d)
      else
        var head := if b[|b| - 2] == 95 then ParseDigits(b[..|b| - 2]) else ParseDigits(b[..|b| - 1]);
        if head.None? then None else Some(10 * head.value + d)
  }

  /** `int(b"...")` of a token. */
  function ParseInt(b: Bytes): Option<int> {
    if b != [] && (b[0] == 43 || b[0] == 45) then
      match ParseDigits(b[1..])
      case None => None
      case Some(n) =>
        var m: int := n;
        Some(if b[0] == 45 then -m else m)
    else
      match ParseDigits(b)
      case None => None
      case Some(n) => Some(n)
  }

  lemma {:induction false} ParseDigitsInverts(n: nat)
    ensures ParseDigits(Digits(n)) == Some(n)
  {
    if n >= 10 {
      ParseDigitsInverts(n / 10);
      var b := Digits(n);
      assert b[..|b| - 1] == Digits(n / 10);
      assert IsDigit(b[|b| - 2]);
    }
  }

  /** Printing a number and reading it back. */
  lemma ParseIntInverts(n: nat)
    ensures ParseInt(Digits(n)) == Some(n)
  {
    ParseDigitsInverts(n);
    assert IsDigit(Digits(n)[0]);
  }

  function Negated(n: int): Option<int> { Some(-n) }

  /** What else `int` takes and refuses: a sign, a single underscore between digits, nothing besides. */
  lemma ParseIntForms(n: nat, d: nat)
    requires d < 10
    ensures ParseInt([45] + Digits(n)) == Negated(n) && ParseInt([43] + Digits(n)) == Some(n)
    ensures ParseInt(Digits(n) + [95, (48 + d) as byte]) == Some(10 * n + d)
    ensures ParseInt([]) == None && ParseInt([45]) == None && ParseInt(Digits(n) + [95]) == None
    ensures ParseInt(Digits(n) + [95, 95, (48 + d) as byte]) == None
  {
    ParseDigitsInverts(n);
    assert IsDigit(Digits(n)[0]);
    assert ([45] + Digits(n))[1..] == Digits(n) && ([43] + Digits(n))[1..] == Digits(n);
    var one, two := Digits(n) + [95, (48 + d) as byte], Digits(n) + [95, 95, (48 + d) as byte];
    assert one[..|one| - 2] == Digits(n);
    assert two[..|two| - 2] == Digits(n) + [95];
    assert ParseDigits(Digits(n) + [95]) == None;
  }

  /** `readline()`: up to and with the first newline, or everything. */
  function LineLength(b: Bytes): (n: nat)
    ensures n <= |b| && (b != [] ==> n > 0)
  {
    if b == [] then 0 else if b[0] == NEWLINE then 1 else 1 + LineLength(b[1..])
  }

  function FirstLine(b: Bytes): Bytes { b[..LineLength(b)] }

  function AfterLine(b: Bytes): (r: Bytes)
    ensures b != [] ==> |r| < |b|
  {
    b[LineLength(b)..]
  }

  predicate NoNewline(b: Bytes) { NEWLINE !in b }

  lemma {:induction false} LineLengthIs(line: Bytes, rest: Bytes)
    requires NoNewline(line)
    ensures LineLength(line + [NEWLINE] + rest) == |line| + 1
  {
    if line != [] {
      assert (line + [NEWLINE] + rest)[1..] == line[1..] + [NEWLINE] + rest;
      LineLengthIs(line[1..], rest);
    }
  }

  lemma ReadsLine(line: Bytes, rest: Bytes)
    requires NoNewline(line)
    ensures FirstLine(line + [NEWLINE] + rest) == line + [NEWLINE]
    ensures AfterLine(line + [NEWLINE] + rest) == rest
  {
    LineLengthIs(line, rest);
  }

  /** `strip()` of the right end, then of the left. */
  function Strip(b: Bytes): Bytes
    decreases |b|
  {
    if b == [] then []
    else if IsSpace(b[|b| - 1]) then Strip(b[..|b| - 1])
    else if IsSpace(b[0]) then Strip(b[1..])
    else b
  }

  function TokenLength(b: Bytes): (n: nat)
    ensures n <= |b|
    ensures b != [] && !IsSpace(b[0]) ==> n > 0
  {
    if b == [] || IsSpace(b[0]) then 0 else 1 + TokenLength(b[1..])
  }

  /** `split()`. */
  function Split(b: Bytes): seq<Bytes>
    decreases |b|
  {
    if b == [] then []
    else if IsSpace(b[0]) then Split(b[1..])
    else [b[..TokenLength(b)]] + Split(b[TokenLength(b)..])
  }

  predicate IsToken(t: Bytes) { t != [] && forall k | 0 <= k < |t| :: !IsSpace(t[k]) }

  lemma {:induction false} TokenLengthIs(t: Bytes, sep: byte, rest: Bytes)
    requires (forall k | 0 <= k < |t| :: !IsSpace(t[k])) && IsSpace(sep)
    ensures TokenLength(t + [sep] + rest) == |t|
  {
    if t != [] {
      assert (t + [sep] + rest)[1..] == t[1..] + [sep] + rest;
      TokenLengthIs(t[1..], sep, rest);
    }
  }

  lemma SplitsToken(t: Bytes, sep: byte, rest: Bytes)
    requires IsToken(t) && IsSpace(sep)
    ensures Split(t + [sep] + rest) == [t] + Split(rest)
  {
    var b := t + [sep] + rest;
    TokenLengthIs(t, sep, rest);
    assert b[..|t|] == t && b[|t|..] == [sep] + rest;
    assert ([sep] + rest)[1..] == rest;
  }
}
