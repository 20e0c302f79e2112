// src/driver/PLCS_12.c: the rows of 32 bytes that the columns of a frame are
// copied to. Nothing checks a length or the 8-bit row counter, so a column can
// run into the rows behind its own, and the rows are reused from the start
// after 256 columns.

module PlcsRows {
  import opened Bits
  import opened CStrings
  import opened Wrappers

  const ROW := 32
  const MEMORY := 1024 * ROW

  // The size of the buffer a frame is copied to with its NUL.
  const FRAME_BUFFER := 10240

  // strcpy to the address at.
  function Store(mem: seq<byte>, at: nat, t: seq<byte>): (r: seq<byte>)
    requires at + |t| < |mem|
    ensures |r| == |mem|
    ensures forall i :: 0 <= i < |mem| ==>
      r[i] == if at <= i < at + |t| then t[i - at] else if i == at + |t| then NUL else mem[i]
  {
    mem[..at] + t + [NUL] + mem[at + |t| + 1..]
  }

  // The row of token j, when a UINT8 that starts at first counts them.
  function RowFor(first: nat, j: nat): (r: nat)
    ensures r < 256
  {
    (first + j) % 256
  }

  // parsingCnt starts at 1.
  function RowAt(j: nat): nat { RowFor(1, j) }

  predicate Storable(ts: seq<seq<byte>>) {
    forall i :: 0 <= i < |ts| ==> |ts[i]| < FRAME_BUFFER && NUL !in ts[i]
  }

  // parsing after all tokens are copied.
  function Stored(ts: seq<seq<byte>>): (mem: seq<byte>)
    requires Storable(ts)
    ensures |mem| == MEMORY
  {
    if ts == [] then seq(MEMORY, i => NUL)
    else Store(Stored(ts[..|ts| - 1]), ROW * RowAt(|ts| - 1), ts[|ts| - 1])
  }

  lemma StoredMore(ts: seq<seq<byte>>)
    requires Storable(ts) && ts != []
    ensures var k := |ts| - 1; Stored(ts) == Store(Stored(ts[..k]), ROW * RowAt(k), ts[k])
  {}

  lemma RowsAgain(j: nat)
    requires 255 <= j <= 264
    ensures RowAt(j) == j - 255
  {}

  lemma RowsInOrder(j: nat)
    requires j < 255
    ensures RowAt(j) == j + 1
  {}

  // The text in the 32 bytes of row r, if they hold the end of one.
  function Row(mem: seq<byte>, r: nat): (t: Option<seq<byte>>)
    requires |mem| == MEMORY && r < 256
    ensures t.Some? ==> |t.value| < ROW && NUL !in t.value
  {
    var cells := mem[ROW * r..ROW * r + ROW];
    if NUL in cells then Some(CText(cells)) else None
  }

  lemma RowOfStore(mem: seq<byte>, r: nat, t: seq<byte>)
    requires |mem| == MEMORY && r < 256 && |t| < FRAME_BUFFER && NUL !in t
    ensures Row(Store(mem, ROW * r, t), r) == if |t| < ROW then Some(t) else None
  {
    hide CText, Store;
    var after, at := Store(mem, ROW * r, t), ROW * r;
    var cells := after[at..at + ROW];
    forall k | 0 <= k < ROW && k < |t| ensures cells[k] == t[k] {
      assert cells[k] == after[at + k];
    }
    if |t| < ROW {
      assert cells[|t|] == after[at + |t|] == NUL;
      assert cells[..|t|] == t;
      CTextIs(cells, |t|);
    } else {
      assert cells == t[..ROW];
    }
  }

  lemma OtherRow(mem: seq<byte>, at: nat, t: seq<byte>, r: nat)
    requires |mem| == MEMORY && r < 256 && at + |t| < MEMORY
    requires at + |t| < ROW * r || ROW * r + ROW <= at
    ensures Row(Store(mem, at, t), r) == Row(mem, r)
  {
    hide CText;
    assert Store(mem, at, t)[ROW * r..ROW * r + ROW] == mem[ROW * r..ROW * r + ROW];
  }

  // ----- Short tokens: each row holds the last token copied to it

  // The last of n tokens that goes to row r, if there is one; first is the row
  // of the first token.
  function LastWriter(first: nat, r: nat, n: nat): (w: Option<nat>)
    ensures w.Some? ==> w.value < n && RowFor(first, w.value) == r
    ensures forall j :: (if w.Some? then w.value + 1 else 0) <= j < n ==> RowFor(first, j) != r
  {
    if n == 0 then None
    else if RowFor(first, n - 1) == r then Some(n - 1)
    else LastWriter(first, r, n - 1)
  }

  lemma {:induction false} RowHoldsLast(ts: seq<seq<byte>>, r: nat)
    requires Storable(ts) && r < 256 && forall t :: t in ts ==> |t| < ROW
    ensures Row(Stored(ts), r)
         == match LastWriter(1, r, |ts|) { case None => Some([]) case Some(j) => Some(ts[j]) }
  {
    hide CText, Row, Store, Stored;
    if ts == [] {
      EmptyRow(r);
    } else {
      var k := |ts| - 1;
      StoredMore(ts);
      RowHoldsLast(ts[..k], r);
      if RowAt(k) == r {
        RowOfStore(Stored(ts[..k]), r, ts[k]);
      } else {
        OtherRow(Stored(ts[..k]), ROW * RowAt(k), ts[k], r);
      }
    }
  }

  lemma EmptyRow(r: nat)
    requires r < 256
    ensures Row(Stored([]), r) == Some([])
  {
    var cells := Stored([])[ROW * r..ROW * r + ROW];
    assert cells[0] == NUL && cells[..0] == [];
    CTextIs(cells, 0);
  }

  // ----- Tokens of any length

  // Rows 9 to 77 are read, except row 62.
  predicate Used(r: nat) { 9 <= r <= 77 && r != 62 }

  // Copied to a row that was used before, and reaching row 9 or beyond.
  predicate ComesBack(j: nat, length: nat) { 255 <= j && 32 * RowAt(j) + length >= 32 * 9 }

  predicate NoneComesBack(ts: seq<seq<byte>>) {
    forall j :: 0 <= j < |ts| ==> !ComesBack(j, |ts[j]|)
  }

  // Row r holds token r - 1, or runs into the next row if that token is longer
  // than 31 bytes.
  lemma {:induction false} RowHoldsToken(ts: seq<seq<byte>>, r: nat)
    requires Storable(ts) && NoneComesBack(ts) && 9 <= r < 256 && r <= |ts|
    ensures Row(Stored(ts), r) == if |ts[r - 1]| < ROW then Some(ts[r - 1]) else None
  {
    hide CText, Row, Store, Stored, RowFor;
    var k := |ts| - 1;
    StoredMore(ts);
    if k < 255 {
      RowsInOrder(k);
    }
    if k == r - 1 {
      RowOfStore(Stored(ts[..k]), r, ts[k]);
    } else {
      assert forall j :: 0 <= j < k ==> ts[..k][j] == ts[j];
      RowHoldsToken(ts[..k], r);
      assert !ComesBack(k, |ts[k]|);
      OtherRow(Stored(ts[..k]), ROW * RowAt(k), ts[k], r);
    }
  }

  // What the code relies on.
  ghost predicate InPlace(ts: seq<seq<byte>>)
    requires Storable(ts)
  {
    |ts| >= 77 && forall r :: Used(r) ==> Row(Stored(ts), r) == Some(ts[r - 1])
  }

  predicate Lengths(ts: seq<seq<byte>>, lengths: seq<nat>) {
    |ts| == |lengths| && forall i :: 0 <= i < |ts| ==> |ts[i]| == lengths[i]
  }

  predicate Bounded(lengths: seq<nat>, limit: nat) {
    forall i :: 0 <= i < |lengths| ==> 0 < lengths[i] < limit
  }

  function Letters(n: nat, b: byte): (t: seq<byte>)
    requires b != NUL
    ensures |t| == n && NUL !in t && forall p :: 0 <= p < n ==> t[p] == b
  {
    seq(n, p => b)
  }

  // a for the first 255 tokens, b from there on
  function Example(lengths: seq<nat>): (ts: seq<seq<byte>>)
    requires Bounded(lengths, FRAME_BUFFER)
    ensures Storable(ts) && Lengths(ts, lengths)
    ensures forall i, p :: 0 <= i < |ts| && 0 <= p < |ts[i]| ==> ts[i][p] == if i < 255 then 97 else 98
  {
    seq(|lengths|, i requires 0 <= i < |lengths| => Letters(lengths[i], if i < 255 then 97 else 98))
  }

  // Once a token has come back, row 9 no longer starts with an a.
  lemma {:induction false} RowNineLost(ts: seq<seq<byte>>, lengths: seq<nat>, m: nat, j: nat)
    requires Bounded(lengths, FRAME_BUFFER) && ts == Example(lengths)
    requires j < m <= |ts| && ComesBack(j, lengths[j]) && j <= 264
    ensures Storable(ts[..m]) && Stored(ts[..m])[ROW * 9] != 97
  {
    hide Store, Stored, RowFor;
    var k := m - 1;
    assert ts[..m][..k] == ts[..k];
    StoredMore(ts[..m]);
    if j < k {
      RowNineLost(ts, lengths, k, j);
    }
    RowsAgain(j);
  }

  ghost predicate SafeLengths(lengths: seq<nat>) {
    && |lengths| >= 77
    && (forall r :: Used(r) ==> lengths[r - 1] <= 31)
    && (forall j :: 0 <= j < |lengths| ==> !ComesBack(j, lengths[j]))
  }

  // Whatever the columns hold, the rows that are read hold the columns they
  // should, if and only if there are 77 columns, those read have at most 31
  // bytes, and no column from the 256th on reaches row 9.
  lemma {:induction false} InPlaceIffSafe(lengths: seq<nat>)
    requires Bounded(lengths, FRAME_BUFFER)
    ensures (forall ts :: Lengths(ts, lengths) && Storable(ts) ==> InPlace(ts)) <==> SafeLengths(lengths)
  {
    hide Stored, Row;
    if SafeLengths(lengths) {
      forall ts | Lengths(ts, lengths) && Storable(ts) ensures InPlace(ts) {
        forall r | Used(r) ensures Row(Stored(ts), r) == Some(ts[r - 1]) {
          RowHoldsToken(ts, r);
        }
      }
    } else {
      var ts := Example(lengths);
      NotInPlace(lengths);
      assert Lengths(ts, lengths) && Storable(ts) && !InPlace(ts);
    }
  }

  lemma NotInPlace(lengths: seq<nat>)
    requires Bounded(lengths, FRAME_BUFFER) && !SafeLengths(lengths)
    ensures !InPlace(Example(lengths))
  {
    hide Stored, Row, RowFor, Example, Letters;
    var ts := Example(lengths);
    if |ts| >= 77 && forall r :: Used(r) ==> Row(Stored(ts), r) == Some(ts[r - 1]) {
      assert forall r :: Used(r) ==> |ts[r - 1]| < ROW;
      var j :| 0 <= j < |lengths| && ComesBack(j, lengths[j]);
      RowsAgain(264);
      assert j >= 264 ==> ComesBack(264, lengths[264]);
      RowNineLost(ts, lengths, |ts|, if j < 264 then j else 264);
      assert ts[..|ts|] == ts;
      assert Used(9);
      RowStart(Stored(ts), 9);
    }
  }

  lemma RowStart(mem: seq<byte>, r: nat)
    requires |mem| == MEMORY && r < 256 && Row(mem, r).Some? && Row(mem, r).value != []
    ensures mem[ROW * r] == Row(mem, r).value[0]
  {}

  // 264 columns are the most that are safe.
  lemma {:induction false} AtMost264Columns(lengths: seq<nat>)
    requires Bounded(lengths, 32)
    ensures SafeLengths(lengths) <==> 77 <= |lengths| <= 264
  {
    forall j | 255 <= j <= 264 ensures RowAt(j) == j - 255 {
      RowsAgain(j);
    }
    assert |lengths| >= 265 ==> ComesBack(264, lengths[264]);
  }

  // ----- Too few tokens

  // Trimming needs a text that ends within the row and is not empty.
  predicate Readable(mem: seq<byte>, r: nat)
    requires |mem| == MEMORY && r < 256
  {
    Row(mem, r).Some? && Row(mem, r).value != []
  }

  // How many of k rows from row 63 are readable.
  function CountReadable(mem: seq<byte>, k: nat): nat
    requires |mem| == MEMORY && k <= 15
  {
    if k == 0 then 0 else CountReadable(mem, k - 1) + if Readable(mem, 62 + k) then 1 else 0
  }

  lemma {:induction false} AllReadable(mem: seq<byte>, k: nat)
    requires |mem| == MEMORY && k <= 15 && forall r :: 63 <= r < 63 + k ==> Readable(mem, r)
    ensures CountReadable(mem, k) == k
  {
    if k > 0 {
      AllReadable(mem, k - 1);
    }
  }

  lemma RowWithin(mem: seq<byte>, at: nat, t: seq<byte>, r: nat)
    requires |mem| == MEMORY && r < 256 && at + |t| < MEMORY && NUL !in t
    requires at <= ROW * r && ROW * r + ROW <= at + |t|
    ensures Row(Store(mem, at, t), r) == None
  {
    assert Store(mem, at, t)[ROW * r..ROW * r + ROW] == t[ROW * r - at..ROW * r + ROW - at];
  }

  // A token that runs on from a row before row 63 ends in one row: those it
  // passes cannot be read, those behind its end stay as they are.
  lemma {:induction false} OneMoreReadable(mem: seq<byte>, r: nat, t: seq<byte>, k: nat)
    requires |mem| == MEMORY && r <= 62 && |t| < FRAME_BUFFER && NUL !in t && k <= 15
    ensures var after := Store(mem, ROW * r, t);
      && CountReadable(after, k) <= CountReadable(mem, k) + 1
      && (62 + k < r + |t| / ROW ==> CountReadable(after, k) == 0)
      && (|t| < ROW ==> CountReadable(after, k) == CountReadable(mem, k))
  {
    hide Row, Store;
    if k > 0 {
      OneMoreReadable(mem, r, t, k - 1);
      if 62 + k < r + |t| / ROW {
        RowWithin(mem, ROW * r, t, 62 + k);
      } else if 62 + k > r + |t| / ROW {
        OtherRow(mem, ROW * r, t, 62 + k);
      }
    }
  }

  // How many of n tokens are not in rows 9 to 61.
  function Outside(n: nat): nat { if n <= 8 then n else if n <= 61 then 8 else n - 53 }

  lemma {:induction false} FewReadable(ts: seq<seq<byte>>)
    requires Storable(ts) && |ts| <= 62 && forall j :: 8 <= j <= 60 && j < |ts| ==> |ts[j]| < ROW
    ensures CountReadable(Stored(ts), 15) <= Outside(|ts|)
  {
    hide Store, Stored, RowFor, CountReadable;
    if ts == [] {
      NothingReadable(15);
    } else {
      var k := |ts| - 1;
      StoredMore(ts);
      RowsInOrder(k);
      FewReadable(ts[..k]);
      OneMoreReadable(Stored(ts[..k]), k + 1, ts[k], 15);
    }
  }

  lemma {:induction false} NothingReadable(k: nat)
    requires k <= 15
    ensures CountReadable(Stored([]), k) == 0
  {
    hide Stored, Row;
    if k > 0 {
      NothingReadable(k - 1);
      EmptyRow(62 + k);
    }
  }

  // When the tokens end before row 63, what long ones leave behind does not
  // make up for the rest.
  lemma {:induction false} SomeRowUnreadable(ts: seq<seq<byte>>) returns (r: nat)
    requires Storable(ts) && |ts| <= 62
    ensures Used(r) && !Readable(Stored(ts), r)
  {
    hide Stored, Row;
    if j :| 8 <= j <= 60 && j < |ts| && |ts[j]| >= ROW {
      r := j + 1;
      RowHoldsToken(ts, r);
    } else {
      FewReadable(ts);
      if forall r :: 63 <= r < 78 ==> Readable(Stored(ts), r) {
        AllReadable(Stored(ts), 15);
        assert false;
      }
      r :| 63 <= r < 78 && !Readable(Stored(ts), r);
    }
  }

  // ----- The loop over strtok

  const COMMA: byte := 0x2c

  // The tokens of a frame.
  function ColumnTokens(setBuffer: seq<byte>): (ts: seq<seq<byte>>)
    requires |setBuffer| < FRAME_BUFFER
    ensures Storable(ts) && [] !in ts
  {
    TokensAreClean(CText(setBuffer), COMMA);
    Tokens(CText(setBuffer), COMMA)
  }

  method StrCpy(mem: array<byte>, at: nat, t: seq<byte>)
    requires at + |t| < mem.Length
    modifies mem
    ensures mem[..] == Store(old(mem[..]), at, t)
  {
    forall i | 0 <= i < |t| {
      mem[at + i] := t[i];
    }
    mem[at + |t|] := NUL;
    assert mem[..] == Store(old(mem[..]), at, t);
  }

  method StoreColumns(setBuffer: seq<byte>) returns (parsing: array<byte>)
    requires |setBuffer| < FRAME_BUFFER
    ensures fresh(parsing) && parsing[..] == Stored(ColumnTokens(setBuffer))
  {
    hide Tokens, CText, Store, Stored, RowFor;
    ghost var tokens := ColumnTokens(setBuffer);
    parsing := new byte[MEMORY](i => NUL);
    NothingStored(parsing[..]);
    NextRow(0);
    var parsingCnt := 1;
    ghost var j := 0;
    var rest := setBuffer;
    var token, next := StrTok(rest, COMMA);
    while token.Some?
      invariant j <= |tokens| && parsingCnt == RowAt(j) && parsing[..] == Stored(tokens[..j])
      invariant token.None? ==> j == |tokens|
      invariant token.Some? ==> |next| < |rest|
      invariant token.Some? ==> tokens[j..] == [token.value] + Tokens(CText(next), COMMA)
      decreases token.Some?, |rest|
    {
      OneMoreStored(tokens, j, [token.value], Tokens(CText(next), COMMA));
      NextRow(j);
      StrCpy(parsing, ROW * parsingCnt, token.value);
      parsingCnt := (parsingCnt + 1) % 256;
      j, rest := j + 1, next;
      token, next := StrTok(rest, COMMA);
    }
    assert tokens[..j] == tokens;
  }

  lemma NextRow(j: nat)
    ensures RowAt(0) == 1 && RowAt(j + 1) == (RowAt(j) + 1) % 256
  {}

  lemma OneMoreStored(ts: seq<seq<byte>>, j: nat, t: seq<seq<byte>>, rest: seq<seq<byte>>)
    requires Storable(ts) && j <= |ts| && |t| == 1 && ts[j..] == t + rest
    ensures j < |ts| && ts[j + 1..] == rest && |t[0]| < FRAME_BUFFER
    ensures Storable(ts[..j]) && Storable(ts[..j + 1])
    ensures Stored(ts[..j + 1]) == Store(Stored(ts[..j]), ROW * RowAt(j), t[0])
  {
    hide Store, Stored, RowFor;
    assert ts[j] == ts[j..][0] == t[0];
    assert ts[j + 1..] == ts[j..][1..];
    assert ts[..j + 1][..j] == ts[..j];
    StoredMore(ts[..j + 1]);
  }

  lemma NothingStored(mem: seq<byte>)
    requires |mem| == MEMORY && forall i :: 0 <= i < MEMORY ==> mem[i] == NUL
    ensures mem == Stored([])
  {}
}
