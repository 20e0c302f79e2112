// Strings of C as sequences of bytes: the terminating NUL, strtok, atoi,
// isspace and src/driver/stringTrim.c.

module CStrings {
  import opened Bits
  import opened Sequences
  import opened Wrappers

  const NUL: byte := 0

  // What the functions of C see of the bytes at an address.
  function CText(s: seq<byte>): (t: seq<byte>)
    ensures t <= s && NUL !in t
    ensures |t| < |s| ==> s[|t|] == NUL
  {
    s[..TokenLength(s, NUL)]
  }

  lemma CTextIs(s: seq<byte>, n: nat)
    requires n <= |s| && NUL !in s[..n] && (n < |s| ==> s[n] == NUL)
    ensures CText(s) == s[..n]
  {
    LengthIs(s, NUL, n);
  }

  lemma CTextFrom(s: seq<byte>, i: nat)
    requires i <= |CText(s)|
    ensures CText(s[i..]) == CText(s)[i..]
  {
    var n := |CText(s)|;
    assert s[i..][..n - i] == CText(s)[i..];
    CTextIs(s[i..], n - i);
  }

  lemma CTextIsAll(s: seq<byte>)
    ensures CText(s) == s <==> NUL !in s
  {
    if NUL !in s {
      assert s[..|s|] == s;
      CTextIs(s, |s|);
    }
  }

  // ----- strtok

  // All tokens that repeated calls of strtok return: the non-empty runs
  // between delimiters.
  function Tokens(s: seq<byte>, d: byte): seq<seq<byte>>
    decreases |s|
  {
    if s == [] then []
    else if s[0] == d then Tokens(s[1..], d)
    else [s[..TokenLength(s, d)]] + Tokens(s[TokenLength(s, d)..], d)
  }

  // One call: a token and what the next call continues with. The string ends
  // at a NUL, or with s.
  method StrTok(s: seq<byte>, d: byte) returns (token: Option<seq<byte>>, rest: seq<byte>)
    requires d != NUL
    ensures token.None? ==> Tokens(CText(s), d) == []
    ensures token.Some? ==> |rest| < |s| && Tokens(CText(s), d) == [token.value] + Tokens(CText(rest), d)
  {
    hide Tokens, TokenLength, CText;
    ghost var text := CText(s);
    var i := 0;
    assert text[0..] == text;
    while i < |s| && s[i] == d
      invariant i <= |text| && Tokens(text[i..], d) == Tokens(text, d)
    {
      SkipDelimiter(text, d, i);
      i := i + 1;
    }
    if i == |s| || s[i] == NUL {
      NoTokens(d);
      assert text[i..] == [];
      return None, [];
    }
    var j := TokenEnd(s, d, i);
    TokenFound(s, d, i, j);
    token, rest := Some(s[i..j]), if j < |s| && s[j] == d then s[j + 1..] else s[j..];
  }

  // The end of a token that starts at i.
  method TokenEnd(s: seq<byte>, d: byte, i: nat) returns (j: nat)
    requires i <= |CText(s)|
    ensures i <= j <= |CText(s)| && d !in s[i..j] && (j < |s| ==> s[j] == d || s[j] == NUL)
  {
    hide CText;
    j := i;
    while j < |s| && s[j] != d && s[j] != NUL
      invariant i <= j <= |CText(s)|
      invariant d !in s[i..j]
    {
      assert s[i..j + 1] == s[i..j] + [s[j]];
      j := j + 1;
    }
  }

  lemma TokenFound(s: seq<byte>, d: byte, i: nat, j: nat)
    requires i < |CText(s)| && s[i] != d && d != NUL
    requires i <= j <= |CText(s)| && d !in s[i..j] && (j < |s| ==> s[j] == d || s[j] == NUL)
    ensures i < j
    ensures var rest := if j < |s| && s[j] == d then s[j + 1..] else s[j..];
      Tokens(CText(s)[i..], d) == [s[i..j]] + Tokens(CText(rest), d)
  {
    hide Tokens, CText;
    var text := CText(s);
    assert text[i..j] == s[i..j];
    assert j < |text| ==> s[j] == d && s[j] != NUL by { assert j < |text| ==> text[j] != NUL; }
    TokenBetween(text, d, i, j);
    if j < |s| && s[j] == d {
      assert j < |text|;
      SkipDelimiter(text, d, j);
      CTextFrom(s, j + 1);
    } else {
      CTextFrom(s, j);
    }
  }

  lemma SkipDelimiter(s: seq<byte>, d: byte, i: nat)
    requires i < |s| && s[i] == d
    ensures Tokens(s[i..], d) == Tokens(s[i + 1..], d)
  {
    assert s[i..][1..] == s[i + 1..];
  }

  lemma NoTokens(d: byte)
    ensures Tokens([], d) == []
  {}

  lemma TokenBetween(s: seq<byte>, d: byte, i: nat, j: nat)
    requires i < |s| && s[i] != d && i <= j <= |s| && d !in s[i..j] && (j < |s| ==> s[j] == d)
    ensures i < j && Tokens(s[i..], d) == [s[i..j]] + Tokens(s[j..], d)
  {
    assert s[i..][..j - i] == s[i..j] && s[i..][j - i..] == s[j..];
    LengthIs(s[i..], d, j - i);
  }

  // Every call of strtok on one string.
  method Split(s: seq<byte>, d: byte) returns (tokens: seq<seq<byte>>)
    requires d != NUL
    ensures tokens == Tokens(CText(s), d)
  {
    hide Tokens, CText;
    tokens := [];
    var rest := s;
    var token, next := StrTok(rest, d);
    while token.Some?
      invariant token.None? ==> tokens == Tokens(CText(s), d)
      invariant token.Some? ==> |next| < |rest|
      invariant token.Some? ==> tokens + ([token.value] + Tokens(CText(next), d)) == Tokens(CText(s), d)
      decreases token.Some?, |rest|
    {
      tokens := tokens + [token.value];
      rest := next;
      assert tokens + Tokens(CText(rest), d) == Tokens(CText(s), d);
      token, next := StrTok(rest, d);
    }
  }

  lemma {:induction false} TokensAreClean(s: seq<byte>, d: byte)
    ensures forall t :: t in Tokens(s, d) ==> t != [] && d !in t && |t| <= |s|
    ensures forall t, b :: t in Tokens(s, d) && b in t ==> b in s
    decreases |s|
  {
    if s != [] {
      if s[0] == d {
        TokensAreClean(s[1..], d);
      } else {
        TokensAreClean(s[TokenLength(s, d)..], d);
      }
    }
  }

  lemma TokenThen(t: seq<byte>, d: byte, rest: seq<byte>)
    requires t != [] && d !in t
    ensures Tokens(t + [d] + rest, d) == [t] + Tokens(rest, d)
  {
    var s := t + [d] + rest;
    assert s[..|t|] == t;
    assert s[0] == t[0];
    LengthIs(s, d, |t|);
    assert s[|t|..][0] == d && s[|t|..][1..] == rest;
  }

  lemma LastToken(t: seq<byte>, d: byte)
    requires t != [] && d !in t
    ensures Tokens(t, d) == [t]
  {
    assert t[..|t|] == t;
    LengthIs(t, d, |t|);
    assert t[|t|..] == [];
  }

  // ----- The text between delimiters, empty or not

  function NonEmpty(cs: seq<seq<byte>>): (k: seq<seq<byte>>)
    ensures |k| <= |cs|
  {
    if cs == [] then [] else (if cs[0] != [] then [cs[0]] else []) + NonEmpty(cs[1..])
  }

  // The columns that a string with a NUL still has.
  function Cut(cs: seq<seq<byte>>): seq<seq<byte>> {
    if cs == [] then []
    else if NUL in cs[0] then [CText(cs[0])]
    else [cs[0]] + Cut(cs[1..])
  }

  lemma {:induction false} TokensAreNonEmptyColumns(s: seq<byte>, d: byte)
    ensures Tokens(s, d) == NonEmpty(Columns(s, d))
    decreases |s|
  {
    var n := TokenLength(s, d);
    if n == |s| {
      LastColumn(s, d);
    } else {
      TokensAreNonEmptyColumns(s[n + 1..], d);
      FirstColumn(s, d, n);
      assert ([s[..n]] + Columns(s[n + 1..], d))[1..] == Columns(s[n + 1..], d);
    }
  }

  lemma LastColumn(s: seq<byte>, d: byte)
    requires TokenLength(s, d) == |s|
    ensures Tokens(s, d) == if s == [] then [] else [s]
  {
    if s != [] {
      assert s[..|s|] == s;
      LastToken(s, d);
    }
  }

  lemma FirstColumn(s: seq<byte>, d: byte, n: nat)
    requires n == TokenLength(s, d) < |s|
    ensures Tokens(s, d) == (if n == 0 then [] else [s[..n]]) + Tokens(s[n + 1..], d)
  {
    if n > 0 {
      assert s == s[..n] + [d] + s[n + 1..];
      TokenThen(s[..n], d, s[n + 1..]);
    } else {
      assert s[1..] == s[n + 1..];
    }
  }

  lemma {:induction false} NonEmptyIsAll(cs: seq<seq<byte>>)
    ensures NonEmpty(cs) == cs <==> [] !in cs
  {
    if cs != [] {
      NonEmptyIsAll(cs[1..]);
      assert cs == [cs[0]] + cs[1..];
      if cs[0] != [] {
        assert ([cs[0]] + NonEmpty(cs[1..]))[1..] == NonEmpty(cs[1..]);
      }
    }
  }

  lemma {:induction false} ColumnsOfCText(s: seq<byte>, d: byte)
    requires d != NUL
    ensures Columns(CText(s), d) == Cut(Columns(s, d))
    decreases |s|
  {
    var t, n := CText(s), TokenLength(s, d);
    if |t| <= n {
      assert d !in t by { assert t == s[..n][..|t|]; }
      assert t[..|t|] == t;
      LengthIs(t, d, |t|);
      FirstIsCut(s, d);
    } else {
      assert t[..n] == s[..n];
      LengthIs(t, d, n);
      CTextFrom(s, n + 1);
      ColumnsOfCText(s[n + 1..], d);
      assert NUL !in s[..n];
      assert ([s[..n]] + Columns(s[n + 1..], d))[1..] == Columns(s[n + 1..], d);
    }
  }

  lemma FirstIsCut(s: seq<byte>, d: byte)
    requires d != NUL && |CText(s)| <= TokenLength(s, d)
    ensures Cut(Columns(s, d)) == [CText(s)]
  {
    var t, n := CText(s), TokenLength(s, d);
    var first := s[..n];
    assert Columns(s, d)[0] == first;
    assert |t| == n ==> n == |s| && first == s;
    if |t| < n {
      assert first[|t|] == NUL && first[..|t|] == t;
      CTextIs(first, |t|);
    }
  }

  // A string without empty columns keeps those before a NUL, and what precedes
  // the NUL in its column.
  lemma {:induction false} CutColumns(cs: seq<seq<byte>>, m: nat)
    requires [] !in cs && m <= |cs|
    ensures var ts := NonEmpty(Cut(cs));
      && |ts| <= |cs|
      && (forall j :: 0 <= j < |ts| ==> ts[j] <= cs[j])
      && (forall k :: 0 <= k < |cs| && NUL in cs[k] ==> |ts| <= k + 1)
      && ((forall k :: 0 <= k < m ==> NUL !in cs[k]) ==> |ts| >= m && ts[..m] == cs[..m])
  {
    hide CText, NonEmpty, Cut;
    if cs == [] {
      NothingCut();
    } else {
      CutFirst(cs);
      if NUL !in cs[0] {
        CutColumns(cs[1..], if m == 0 then 0 else m - 1);
        assert forall k :: 0 <= k < |cs| - 1 ==> cs[1..][k] == cs[k + 1];
        assert forall k :: 0 < k < |cs| ==> cs[k] == cs[1..][k - 1];
        assert m > 0 ==> cs[..m] == [cs[0]] + cs[1..][..m - 1];
      } else {
        assert m > 0 ==> NUL in cs[0];
      }
    }
  }

  lemma NothingCut()
    ensures NonEmpty(Cut([])) == []
  {}

  lemma CutFirst(cs: seq<seq<byte>>)
    requires cs != [] && [] !in cs
    ensures var ts := NonEmpty(Cut(cs));
      if NUL in cs[0] then |ts| <= 1 && forall j :: 0 <= j < |ts| ==> ts[j] <= cs[j]
      else ts == [cs[0]] + NonEmpty(Cut(cs[1..]))
  {
    hide CText;
    assert NUL in cs[0] ==> Cut(cs)[1..] == [];
    assert NUL !in cs[0] ==> Cut(cs)[1..] == Cut(cs[1..]);
  }

  lemma {:induction false} ColumnWith(s: seq<byte>, d: byte, b: byte) returns (c: seq<byte>)
    requires b != d && b in s
    ensures c in Columns(s, d) && b in c
    decreases |s|
  {
    var n := TokenLength(s, d);
    if n == |s| {
      c := s;
    } else if b in s[..n] {
      c := s[..n];
    } else {
      assert s == s[..n] + [d] + s[n + 1..];
      c := ColumnWith(s[n + 1..], d, b);
    }
  }

  // strtok puts every column where it belongs if and only if no column is
  // empty and no NUL cuts the string short.
  lemma {:induction false} ColumnsInPlaceIff(s: seq<byte>, d: byte)
    requires d != NUL
    ensures Tokens(CText(s), d) == Columns(s, d) <==> NUL !in s && [] !in Columns(s, d)
  {
    CTextIsAll(s);
    if NUL !in s {
      TokensAreNonEmptyColumns(s, d);
      NonEmptyIsAll(Columns(s, d));
    } else {
      var c := ColumnWith(s, d, NUL);
      TokensAreClean(CText(s), d);
    }
  }

  lemma {:induction false} JoinedBytes(cs: seq<seq<byte>>, d: byte)
    requires cs != [] && forall i :: 0 <= i < |cs| ==> NUL !in cs[i] && |cs[i]| <= 3
    requires d != NUL
    ensures NUL !in Joined(cs, d) && |Joined(cs, d)| < 4 * |cs|
  {
    if |cs| > 1 {
      JoinedBytes(cs[1..], d);
    }
  }

  // ----- isspace, trim and atoi

  predicate Blank(b: byte) { 9 <= b <= 13 || b == 32 }

  // ltrim: a text of blanks only is left as it is.
  function LeftTrim(s: seq<byte>): (t: seq<byte>)
    ensures |t| <= |s| && (s != [] ==> t != [])
    ensures if exists i :: 0 <= i < |s| && !Blank(s[i]) then !Blank(t[0]) else t == s
    ensures forall b :: b in s && !Blank(b) ==> b in t
  {
    if forall i :: 0 <= i < |s| ==> Blank(s[i]) then s
    else if Blank(s[0]) then LeftTrim(s[1..])
    else s
  }

  // rtrim: at least one character stays.
  function RightTrim(s: seq<byte>): (t: seq<byte>)
    requires s != []
    ensures t != [] && t <= s
    ensures |t| > 1 ==> !Blank(t[|t| - 1])
    ensures forall b :: b in s && !Blank(b) ==> b in t
  {
    if |s| > 1 && Blank(s[|s| - 1]) then RightTrim(s[..|s| - 1]) else s
  }

  function Trim(s: seq<byte>): (t: seq<byte>)
    requires s != []
    ensures t != [] && |t| <= |s|
    ensures forall b :: b in s && !Blank(b) ==> b in t
  {
    RightTrim(LeftTrim(s))
  }

  // isspace in the C locale: space, \t, \n, \v, \f and \r
  lemma BlankIsSpace(b: byte)
    ensures Blank(b) <==> b in [0x20, 0x09, 0x0a, 0x0b, 0x0c, 0x0d]
  {}

  // What lies between the blanks at both ends of s.
  ghost predicate Between(s: seq<byte>, i: nat, j: nat) {
    && i < j <= |s| && !Blank(s[i]) && !Blank(s[j - 1])
    && (forall k :: 0 <= k < i ==> Blank(s[k])) && (forall k :: j <= k < |s| ==> Blank(s[k]))
  }

  ghost predicate AllBlank(s: seq<byte>) { forall k :: 0 <= k < |s| ==> Blank(s[k]) }

  lemma {:induction false} LeftTrimIs(s: seq<byte>)
    ensures AllBlank(s) ==> LeftTrim(s) == s
    ensures !AllBlank(s) ==> exists i: nat :: StartsAt(s, i) && LeftTrim(s) == s[i..]
  {
    if !AllBlank(s) {
      if Blank(s[0]) {
        BlankFirst(s);
        LeftTrimIs(s[1..]);
        hide AllBlank, StartsAt, LeftTrim, Blank;
        var i: nat :| StartsAt(s[1..], i) && LeftTrim(s[1..]) == s[1..][i..];
        StartsLater(s, i);
      } else {
        assert s[0..] == s && StartsAt(s, 0);
      }
    }
  }

  lemma BlankFirst(s: seq<byte>)
    requires s != [] && Blank(s[0]) && !AllBlank(s)
    ensures !AllBlank(s[1..]) && LeftTrim(s) == LeftTrim(s[1..])
  {
    assert s == [s[0]] + s[1..];
  }

  lemma StartsLater(s: seq<byte>, i: nat)
    requires s != [] && Blank(s[0]) && StartsAt(s[1..], i)
    ensures StartsAt(s, i + 1) && s[1..][i..] == s[i + 1..]
  {
    hide Blank;
    forall k | 0 < k < i + 1 ensures Blank(s[k]) {
      assert s[k] == s[1..][k - 1];
    }
  }

  ghost predicate StartsAt(s: seq<byte>, i: nat) {
    i < |s| && !Blank(s[i]) && forall k :: 0 <= k < i ==> Blank(s[k])
  }

  lemma {:induction false} RightTrimIs(s: seq<byte>)
    requires s != []
    ensures AllBlank(s) ==> RightTrim(s) == s[..1]
    ensures !Blank(s[0]) ==> exists j: nat :: EndsAt(s, j) && RightTrim(s) == s[..j]
  {
    var last := |s| - 1;
    if last > 0 && Blank(s[last]) {
      RightTrimIs(s[..last]);
      if !Blank(s[0]) {
        var j: nat :| EndsAt(s[..last], j) && RightTrim(s[..last]) == s[..last][..j];
        assert EndsAt(s, j) && s[..last][..j] == s[..j];
      }
    } else {
      assert s[..|s|] == s;
      assert !Blank(s[0]) ==> EndsAt(s, |s|);
    }
  }

  ghost predicate EndsAt(s: seq<byte>, j: nat) {
    0 < j <= |s| && !Blank(s[j - 1]) && forall k :: j <= k < |s| ==> Blank(s[k])
  }

  // Trimming leaves what is between the blanks, or one blank if there is
  // nothing else.
  lemma {:induction false} TrimIs(s: seq<byte>)
    requires s != []
    ensures AllBlank(s) ==> Trim(s) == s[..1]
    ensures !AllBlank(s) ==> exists i: nat, j: nat :: Between(s, i, j) && Trim(s) == s[i..j]
  {
    hide LeftTrim, RightTrim, Blank, AllBlank, Between;
    LeftTrimIs(s);
    RightTrimIs(LeftTrim(s));
    if !AllBlank(s) {
      var i: nat :| StartsAt(s, i) && LeftTrim(s) == s[i..];
      StartIsNotBlank(s, i);
      var j: nat :| EndsAt(s[i..], j) && RightTrim(s[i..]) == s[i..][..j];
      StartAndEnd(s, i, j);
    }
  }

  lemma StartIsNotBlank(s: seq<byte>, i: nat)
    requires StartsAt(s, i)
    ensures i < |s| && s[i..] != [] && !Blank(s[i..][0])
  {}

  lemma StartAndEnd(s: seq<byte>, i: nat, j: nat)
    requires StartsAt(s, i) && EndsAt(s[i..], j)
    ensures Between(s, i, i + j) && s[i..][..j] == s[i..i + j]
  {
    hide Blank;
    forall k | i + j <= k < |s| ensures Blank(s[k]) {
      assert s[k] == s[i..][k - i];
    }
  }

  // A text without blanks at its ends stays as it is.
  lemma {:induction false} TrimLeaves(s: seq<byte>)
    requires s != [] && !Blank(s[0]) && !Blank(s[|s| - 1])
    ensures Trim(s) == s
  {
    hide Trim, Blank;
    TrimIs(s);
    var i: nat, j: nat :| Between(s, i, j) && Trim(s) == s[i..j];
    assert i == 0 && j == |s| && s[0..|s|] == s;
  }

  predicate IsDigit(b: byte) { 48 <= b <= 57 }

  // The value of the digits at the front, after digits worth n.
  function DigitsValue(s: seq<byte>, n: nat): nat {
    if s == [] || !IsDigit(s[0]) then n else DigitsValue(s[1..], 10 * n + (s[0] - 48) as nat)
  }

  function Decimal(ds: seq<byte>): nat
    requires forall i :: 0 <= i < |ds| ==> IsDigit(ds[i])
  {
    if ds == [] then 0
    else
      assert IsDigit(ds[|ds| - 1]);
      10 * Decimal(ds[..|ds| - 1]) + (ds[|ds| - 1] - 0x30) as nat
  }

  lemma {:induction false} DigitsThen(ds: seq<byte>, rest: seq<byte>, n: nat)
    requires forall i :: 0 <= i < |ds| ==> IsDigit(ds[i])
    ensures DigitsValue(ds + rest, n) == DigitsValue(rest, DigitsValue(ds, n))
    decreases ds
  {
    if ds == [] {
      assert ds + rest == rest;
    } else {
      assert (ds + rest)[1..] == ds[1..] + rest;
      DigitsThen(ds[1..], rest, 10 * n + (ds[0] - 48) as nat);
    }
  }

  lemma {:induction false} DigitsAreDecimal(ds: seq<byte>)
    requires forall i :: 0 <= i < |ds| ==> IsDigit(ds[i])
    ensures DigitsValue(ds, 0) == Decimal(ds)
  {
    if ds != [] {
      var init, last := ds[..|ds| - 1], [ds[|ds| - 1]];
      assert ds == init + last && last[1..] == [];
      DigitsAreDecimal(init);
      DigitsThen(init, last, 0);
    }
  }

  // Blanks, digits, and anything that does not start with a digit.
  lemma {:induction false} AtoiIs(blanks: seq<byte>, ds: seq<byte>, rest: seq<byte>)
    requires (forall i :: 0 <= i < |blanks| ==> Blank(blanks[i]))
    requires ds != [] && (forall i :: 0 <= i < |ds| ==> 0x30 <= ds[i] <= 0x39)
    requires rest != [] ==> !(0x30 <= rest[0] <= 0x39)
    ensures Atoi(blanks + ds + rest) == Decimal(ds)
    decreases blanks
  {
    var s := blanks + ds + rest;
    if blanks == [] {
      assert s == ds + rest && s[0] == ds[0];
      DigitsThen(ds, rest, 0);
      DigitsAreDecimal(ds);
    } else {
      assert s[1..] == blanks[1..] + ds + rest;
      AtoiIs(blanks[1..], ds, rest);
    }
  }

  function Atoi(s: seq<byte>): int {
    if s == [] then 0
    else if Blank(s[0]) then Atoi(s[1..])
    else if s[0] == 0x2d then -(DigitsValue(s[1..], 0) as int)
    else if s[0] == 0x2b then DigitsValue(s[1..], 0)
    else DigitsValue(s, 0)
  }
}
