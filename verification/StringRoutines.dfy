/** The library routines that take packets apart: strtok and atoi. */
module StringRoutines {
  import opened Bytes
  import opened Sequences

  const COMMA: Byte := 0x2C
  const MINUS: Byte := 0x2D
  const PLUS: Byte := 0x2B

  // ---------------------------------------------------------------------------
  // strtok
  // ---------------------------------------------------------------------------

  /** The tokens of s, maximal pieces without a delimiter; inside: s continues a token. */
  function Tokens(s: seq<Byte>, delims: set<Byte>, inside: bool): nat {
    if s == [] then 0
    else if s[0] in delims then Tokens(s[1..], delims, false)
    else (if inside then 0 else 1) + Tokens(s[1..], delims, true)
  }

  lemma {:induction false} InsideToken(s: seq<Byte>, delims: set<Byte>, k: nat)
    requires k <= |s| && (forall i :: 0 <= i < k ==> s[i] !in delims) && (k == |s| || s[k] in delims)
    ensures Tokens(s, delims, true) == Tokens(s[k..], delims, true) == Tokens(s[k..], delims, false)
  {
    if k > 0 {
      assert s[1..][k - 1..] == s[k..];
      InsideToken(s[1..], delims, k - 1);
    } else {
      assert s[0..] == s;
    }
  }

  function SkipDelimiters(s: seq<Byte>, delims: set<Byte>): (r: seq<Byte>)
    ensures |r| <= |s| && (r != [] ==> r[0] !in delims)
  {
    if s == [] || s[0] !in delims then s else SkipDelimiters(s[1..], delims)
  }

  function TokenLength(s: seq<Byte>, delims: set<Byte>): (n: nat)
    ensures n <= |s| && (s != [] && s[0] !in delims ==> n > 0)
  {
    if s == [] || s[0] in delims then 0 else 1 + TokenLength(s[1..], delims)
  }

  /** What repeated calls of strtok return. */
  function TokenList(s: seq<Byte>, delims: set<Byte>): seq<seq<Byte>>
    decreases |s|
  {
    var first := SkipDelimiters(s, delims);
    if first == [] then []
    else
      var k := TokenLength(first, delims);
      [first[..k]] + TokenList(first[k..], delims)
  }

  /** What the second call returns. */
  function SecondToken(s: seq<Byte>, delims: set<Byte>): Option<seq<Byte>> {
    if |TokenList(s, delims)| < 2 then None else Some(TokenList(s, delims)[1])
  }

  lemma {:induction false} TokenLengthIs(s: seq<Byte>, delims: set<Byte>, k: nat)
    requires k <= |s| && (forall i :: 0 <= i < k ==> s[i] !in delims) && (k == |s| || s[k] in delims)
    ensures TokenLength(s, delims) == k
  {
    if k == 0 {
    } else {
      TokenLengthIs(s[1..], delims, k - 1);
    }
  }

  lemma {:induction false} TokenStops(s: seq<Byte>, delims: set<Byte>)
    ensures var k := TokenLength(s, delims);
      (forall i :: 0 <= i < k ==> s[i] !in delims) && (k == |s| || s[k] in delims)
  {
    if s == [] || s[0] in delims {
    } else {
      TokenStops(s[1..], delims);
    }
  }

  lemma {:induction false} SkippingKeepsTokens(s: seq<Byte>, delims: set<Byte>)
    ensures Tokens(SkipDelimiters(s, delims), delims, false) == Tokens(s, delims, false)
  {
    if s == [] || s[0] !in delims {
    } else {
      SkippingKeepsTokens(s[1..], delims);
    }
  }

  /** strtok finds every token. */
  lemma {:induction false} AllTokensFound(s: seq<Byte>, delims: set<Byte>)
    ensures |TokenList(s, delims)| == Tokens(s, delims, false)
    decreases |s|
  {
    SkippingKeepsTokens(s, delims);
    var first := SkipDelimiters(s, delims);
    if first == [] {
    } else {
      var k := TokenLength(first, delims);
      TokenStops(first, delims);
      InsideToken(first[1..], delims, k - 1);
      assert first[1..][k - 1..] == first[k..];
      AllTokensFound(first[k..], delims);
    }
  }

  /** One call of strtok: from is where the last one stopped. */
  method NextToken(s: seq<Byte>, delims: set<Byte>, from: nat) returns (found: bool, token: seq<Byte>, next: nat)
    requires from <= |s|
    ensures from <= next <= |s|
    ensures found <==> TokenList(s[from..], delims) != []
    ensures found ==> TokenList(s[from..], delims) == [token] + TokenList(s[next..], delims)
  {
    next, token := from, [];
    while next < |s| && s[next] in delims
      invariant from <= next <= |s|
      invariant SkipDelimiters(s[next..], delims) == SkipDelimiters(s[from..], delims)
    {
      assert s[next..][1..] == s[next + 1..];
      next := next + 1;
    }
    found := next < |s|;
    if found {
      var start := next;
      while next < |s| && s[next] !in delims
        invariant start <= next <= |s| && (next == start ==> s[start] !in delims)
        invariant forall i :: start <= i < next ==> s[i] !in delims
      {
        next := next + 1;
      }
      token := s[start..next];
      TokenLengthIs(s[start..], delims, next - start);
      assert s[start..][..next - start] == token && s[start..][next - start..] == s[next..];
    }
  }

  // ---------------------------------------------------------------------------
  // atoi
  // ---------------------------------------------------------------------------

  predicate IsDigit(c: Byte) {
    0x30 <= c <= 0x39
  }

  predicate IsSpace(c: Byte) {
    c == 0x20 || 0x09 <= c <= 0x0D
  }

  /** The number the leading digits make, continuing from one read so far. */
  function Digits(s: seq<Byte>, sofar: nat): nat {
    if s == [] || !IsDigit(s[0]) then sofar else Digits(s[1..], 10 * sofar + (s[0] as nat - 0x30))
  }

  function AtoI(s: seq<Byte>): int {
    if s == [] then 0
    else if IsSpace(s[0]) then AtoI(s[1..])
    else if s[0] == MINUS then 0 - Digits(s[1..], 0)
    else if s[0] == PLUS then Digits(s[1..], 0)
    else Digits(s, 0)
  }

  function Decimal(n: nat): (s: seq<Byte>)
    ensures |s| > 0 && forall i :: 0 <= i < |s| ==> IsDigit(s[i])
  {
    var last := (0x30 + n % 10) as Byte;
    if n < 10 then [last] else Decimal(n / 10) + [last]
  }

  lemma {:induction false} DigitsSnoc(s: seq<Byte>, c: Byte, sofar: nat)
    requires (forall i :: 0 <= i < |s| ==> IsDigit(s[i])) && IsDigit(c)
    ensures Digits(s + [c], sofar) == 10 * Digits(s, sofar) + (c as nat - 0x30)
  {
    if s == [] {
      assert s + [c] == [c];
    } else {
      assert (s + [c])[1..] == s[1..] + [c];
      DigitsSnoc(s[1..], c, 10 * sofar + (s[0] as nat - 0x30));
    }
  }

  lemma {:induction false} DigitsOfDecimal(n: nat)
    ensures Digits(Decimal(n), 0) == n
  {
    if n < 10 {
    } else {
      DigitsOfDecimal(n / 10);
      DigitsSnoc(Decimal(n / 10), (0x30 + n % 10) as Byte, 0);
    }
  }

  /** atoi reads decimal numbers. */
  lemma AtoIOfDecimal(n: nat)
    ensures AtoI(Decimal(n)) == n
  {
    DigitsOfDecimal(n);
    assert IsDigit(Decimal(n)[0]);
  }

  // ---------------------------------------------------------------------------
  // Pieces of known texts
  // ---------------------------------------------------------------------------

  /** Fields with a delimiter between each two. */
  function Joined(fields: seq<seq<Byte>>, d: Byte): seq<Byte> {
    if fields == [] then []
    else if |fields| == 1 then fields[0]
    else fields[0] + [d] + Joined(fields[1..], d)
  }

  predicate IsField(field: seq<Byte>, delims: set<Byte>) {
    field != [] && forall i :: 0 <= i < |field| ==> field[i] !in delims
  }

  lemma FirstToken(field: seq<Byte>, rest: seq<Byte>, delims: set<Byte>)
    requires IsField(field, delims) && (rest == [] || rest[0] in delims)
    ensures TokenList(field + rest, delims) == [field] + TokenList(rest, delims)
  {
    var s := field + rest;
    TokenLengthIs(s, delims, |field|);
    assert SkipDelimiters(s, delims) == s;
    assert s[..|field|] == field && s[|field|..] == rest;
  }

  lemma DelimiterSkipped(d: Byte, rest: seq<Byte>, delims: set<Byte>)
    requires d in delims
    ensures TokenList([d] + rest, delims) == TokenList(rest, delims)
  {
    assert ([d] + rest)[1..] == rest;
  }

  /** Joining is undone. */
  lemma {:induction false} TokensOfJoined(fields: seq<seq<Byte>>, d: Byte, delims: set<Byte>)
    requires d in delims && forall i :: 0 <= i < |fields| ==> IsField(fields[i], delims)
    ensures TokenList(Joined(fields, d), delims) == fields
  {
    hide TokenList;
    if fields == [] {
      NoTokens(delims);
    } else if |fields| == 1 {
      FirstToken(fields[0], [], delims);
      NoTokens(delims);
      assert fields[0] + [] == fields[0];
    } else {
      var rest := Joined(fields[1..], d);
      FirstToken(fields[0], [d] + rest, delims);
      DelimiterSkipped(d, rest, delims);
      TokensOfJoined(fields[1..], d, delims);
      assert fields[0] + [d] + rest == fields[0] + ([d] + rest);
    }
  }

  lemma NoTokens(delims: set<Byte>)
    ensures TokenList([], delims) == []
  {
  }

  /** The second of two tokens between delimiters. */
  lemma SecondTokenIs(a: seq<Byte>, d: Byte, b: seq<Byte>, e: Byte, rest: seq<Byte>, delims: set<Byte>)
    requires d in delims && e in delims && IsField(a, delims) && IsField(b, delims)
    ensures SecondToken(a + [d] + (b + [e] + rest), delims) == Some(b)
  {
    var second := b + ([e] + rest);
    assert a + [d] + (b + [e] + rest) == a + ([d] + second);
    FirstToken(a, [d] + second, delims);
    DelimiterSkipped(d, second, delims);
    FirstToken(b, [e] + rest, delims);
    hide TokenList, IsField;
  }

  lemma NoSecondToken(s: seq<Byte>, delims: set<Byte>)
    requires IsField(s, delims)
    ensures SecondToken(s, delims) == None
  {
    FirstToken(s, [], delims);
    NoTokens(delims);
    assert s + [] == s;
  }
}
