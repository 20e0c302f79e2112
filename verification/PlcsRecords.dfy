// src/driver/PLCS_12.c: the fields of a frame are written as text, the text
// is split again, and each field becomes a binary record for the tag server.

module PlcsRecords {
  import opened Bits
  import opened CStrings
  import opened PlcsRows
  import opened Sequences
  import opened Wrappers

  const SEMICOLON: byte := 0x3b
  const COLON: byte := 0x3a
  const DATA_BUFF := 1024

  // A transducer id and its value.
  datatype Field = Field(id: byte, value: seq<byte>)

  // ----- From the rows to text

  // "%03d"
  function Digits(n: byte): (d: seq<byte>)
    ensures |d| == 3 && SEMICOLON !in d && COLON !in d && NUL !in d
    ensures forall i :: 0 <= i < 3 ==> 0x30 <= d[i] <= 0x39
    ensures 100 * (d[0] as int - 0x30) + 10 * (d[1] as int - 0x30) + (d[2] as int - 0x30) == n as int
  {
    [48 + n / 100, 48 + n / 10 % 10, 48 + n % 10]
  }

  // "%03d:%s;"
  function Show(f: Field): seq<byte> { Digits(f.id) + [COLON] + CText(f.value) + [SEMICOLON] }

  function Text(fs: seq<Field>): seq<byte> {
    if fs == [] then [] else Show(fs[0]) + Text(fs[1..])
  }

  // The fields of k rows from row 9, without row 62, under ids from 100; None
  // if one of the rows is not readable.
  function FieldsIn(mem: seq<byte>, k: nat): Option<seq<Field>>
    requires |mem| == MEMORY && k <= 69
  {
    if k == 0 then Some([])
    else if k == 54 then FieldsIn(mem, k - 1)
    else
      match FieldsIn(mem, k - 1)
      case None => None
      case Some(fs) =>
        if Readable(mem, 8 + k) then Some(fs + [Field((99 + k) as byte, Trim(Row(mem, 8 + k).value))]) else None
  }

  // The loop over idOffset of ParsingReceiveValue_12. None: the code would
  // trim an empty text or one that runs out of its row, which is not defined.
  method FormatFields(setBuffer: seq<byte>) returns (setString: Option<seq<byte>>, trCount: nat)
    requires |setBuffer| < FRAME_BUFFER
    ensures match FieldsIn(Stored(ColumnTokens(setBuffer)), 69)
      case None => setString == None
      case Some(fs) => setString == Some(Text(fs)) && trCount == |fs| == 68
  {
    hide Show, Text, Stored, CText, Tokens, Readable, Row, Trim, FieldsIn;
    var parsing := StoreColumns(setBuffer);
    ghost var mem := parsing[..];
    ghost var fs: seq<Field> := [];
    NoFields(mem);
    setString, trCount := Some([]), 0;
    var idOffset := 9;
    while idOffset < 78
      invariant 9 <= idOffset <= 78 && parsing[..] == mem
      invariant FieldsIn(mem, idOffset - 9) == Some(fs) && setString == Some(Text(fs))
      invariant trCount == |fs| == idOffset - 9 - if idOffset - 9 > 53 then 1 else 0
    {
      if idOffset - 9 != 53 {
        var text := ReadRow(parsing, idOffset);
        if text == None {
          UnreadableRow(mem, idOffset - 8, 69);
          return None, 0;
        }
        var f := Field((100 - 9 + idOffset) as byte, Trim(text.value));
        TextOfMore(fs, f);
        OneMoreField(mem, idOffset - 8, fs, f);
        setString := Some(setString.value + Show(f));
        fs := fs + [f];
        trCount := trCount + 1;
      } else {
        SkipRow62(mem);
      }
      idOffset := idOffset + 1;
    }
  }

  lemma NoFields(mem: seq<byte>)
    requires |mem| == MEMORY
    ensures FieldsIn(mem, 0) == Some([]) && Text([]) == []
  {}

  lemma SkipRow62(mem: seq<byte>)
    requires |mem| == MEMORY
    ensures FieldsIn(mem, 54) == FieldsIn(mem, 53)
  {}

  lemma OneMoreField(mem: seq<byte>, k: nat, fs: seq<Field>, f: Field)
    requires |mem| == MEMORY && 1 <= k <= 69 && k != 54 && FieldsIn(mem, k - 1) == Some(fs)
    requires Readable(mem, 8 + k) && f == Field((99 + k) as byte, Trim(Row(mem, 8 + k).value))
    ensures FieldsIn(mem, k) == Some(fs + [f])
  {}

  // trimBuffer is filled from a row; the text in it, if it can be trimmed.
  method ReadRow(parsing: array<byte>, r: nat) returns (text: Option<seq<byte>>)
    requires parsing.Length == MEMORY && r < 256
    ensures text.Some? <==> Readable(parsing[..], r)
    ensures text.Some? ==> text == Row(parsing[..], r) && text.value != []
  {
    var trimBuffer := parsing[ROW * r..ROW * r + ROW];
    assert parsing[..][ROW * r..ROW * r + ROW] == trimBuffer;
    var n := 0;
    while n < ROW && trimBuffer[n] != NUL
      invariant n <= ROW && NUL !in trimBuffer[..n]
    {
      assert trimBuffer[..n + 1] == trimBuffer[..n] + [trimBuffer[n]];
      n := n + 1;
    }
    assert trimBuffer[..ROW] == trimBuffer;
    if n == 0 || n == ROW {
      text := None;
    } else {
      text := Some(trimBuffer[..n]);
    }
    CTextIs(trimBuffer, n);
  }

  lemma {:induction false} UnreadableRow(mem: seq<byte>, k: nat, n: nat)
    requires |mem| == MEMORY && 1 <= k <= n <= 69 && k != 54 && !Readable(mem, 8 + k)
    ensures FieldsIn(mem, n) == None
  {
    hide Readable;
    if k < n {
      UnreadableRow(mem, k, n - 1);
    }
  }

  lemma {:induction false} TextOfMore(fs: seq<Field>, f: Field)
    ensures Text(fs + [f]) == Text(fs) + Show(f)
  {
    hide Show;
    if fs == [] {
      assert fs + [f] == [f] && [f][1..] == [];
    } else {
      assert (fs + [f])[1..] == fs[1..] + [f];
      TextOfMore(fs[1..], f);
      assert Show(fs[0]) + (Text(fs[1..]) + Show(f)) == (Show(fs[0]) + Text(fs[1..])) + Show(f);
    }
  }

  // ----- What the columns of a frame should become

  // Columns 9 to 77, without column 62, under ids from 100.
  function FieldsFrom(columns: seq<seq<byte>>, k: nat): seq<Field>
    requires k <= 69 && |columns| >= 77 && [] !in columns
  {
    if k == 0 then []
    else if k == 54 then FieldsFrom(columns, k - 1)
    else FieldsFrom(columns, k - 1) + [Field((99 + k) as byte, Trim(columns[7 + k]))]
  }

  lemma {:induction false} FieldOfColumn(columns: seq<seq<byte>>, m: nat, k: nat)
    requires 1 <= m <= k <= 69 && m != 54 && |columns| >= 77 && [] !in columns
    ensures Field((99 + m) as byte, Trim(columns[7 + m])) in FieldsFrom(columns, k)
  {
    hide Trim;
    if m < k {
      FieldOfColumn(columns, m, k - 1);
    }
  }

  lemma {:induction false} RowsGiveFields(mem: seq<byte>, columns: seq<seq<byte>>, k: nat)
    requires |mem| == MEMORY && k <= 69 && |columns| >= 77 && [] !in columns
    requires forall r :: Used(r) ==> Row(mem, r) == Some(columns[r - 1])
    ensures FieldsIn(mem, k) == Some(FieldsFrom(columns, k))
  {
    hide Trim, Row;
    if k > 0 {
      RowsGiveFields(mem, columns, k - 1);
      assert k != 54 ==> Used(8 + k);
    }
  }

  // The i-th field is column 9 + i, or column 10 + i from column 63 on, under
  // the id 91 plus the number of the column; a column without blanks at its
  // ends arrives as it is.
  lemma {:induction false} ColumnArrives(columns: seq<seq<byte>>, i: nat)
    requires |columns| >= 77 && [] !in columns && i < 68
    ensures var number := if i < 53 then 9 + i else 10 + i;
      var fs, column := FieldsFrom(columns, 69), columns[number - 1];
      && |fs| == 68 && fs[i].id as nat == 91 + number && fs[i].value == Trim(column)
      && (!Blank(column[0]) && !Blank(column[|column| - 1]) ==> fs[i].value == column)
  {
    hide Trim, Blank;
    var k := if i < 53 then i + 1 else i + 2;
    FieldsLength(columns, 69);
    FieldsLength(columns, k);
    FieldsPrefix(columns, k, 69);
    var column := columns[7 + k];
    if !Blank(column[0]) && !Blank(column[|column| - 1]) {
      TrimLeaves(column);
    }
  }

  lemma {:induction false} FieldsLength(columns: seq<seq<byte>>, k: nat)
    requires k <= 69 && |columns| >= 77 && [] !in columns
    ensures |FieldsFrom(columns, k)| == k - if k >= 54 then 1 else 0
  {
    hide Trim;
    if k > 0 {
      FieldsLength(columns, k - 1);
    }
  }

  lemma {:induction false} FieldsPrefix(columns: seq<seq<byte>>, k: nat, n: nat)
    requires k <= n <= 69 && |columns| >= 77 && [] !in columns
    ensures FieldsFrom(columns, k) <= FieldsFrom(columns, n)
  {
    hide Trim;
    if k < n {
      FieldsPrefix(columns, k, n - 1);
    }
  }

  // Three digits, a colon, the value and a semicolon,
  lemma ShowIs(f: Field)
    requires 0 !in f.value
    ensures Show(f) == Digits(f.id) + [0x3a] + f.value + [0x3b]
  {
    CTextIsAll(f.value);
  }

  // for instance 100:12;
  lemma TextExample()
    ensures Show(Field(100, [0x31, 0x32])) == [0x31, 0x30, 0x30, 0x3a, 0x31, 0x32, 0x3b]
  {
    CTextIsAll([0x31, 0x32]);
  }

  // ----- selectTag_12

  // The field in one token; None where strtok finds no value.
  function FieldOf(token: seq<byte>): Option<Field> {
    var parts := Tokens(token, COLON);
    if |parts| < 2 then None else Some(Field((Atoi(parts[0]) % 256) as byte, parts[1]))
  }

  // The token in row i of parsing[256][256]; None if there is none.
  function TokenInRow(tokens: seq<seq<byte>>, i: nat): Option<seq<byte>> {
    if i >= 256 then None else
    match LastWriter(0, i, |tokens|) case None => None case Some(j) => Some(tokens[j])
  }

  function FieldInRow(tokens: seq<seq<byte>>, i: nat): Option<Field> {
    match TokenInRow(tokens, i) case None => None case Some(token) => FieldOf(token)
  }

  function FieldsInRows(tokens: seq<seq<byte>>, k: nat): (fs: Option<seq<Field>>)
    ensures fs.Some? ==> |fs.value| == k
    ensures fs.Some? ==> forall i :: 0 <= i < k ==> FieldInRow(tokens, i) == Some(fs.value[i])
  {
    if k == 0 then Some([])
    else match FieldsInRows(tokens, k - 1)
      case None => None
      case Some(fs) => match FieldInRow(tokens, k - 1) case None => None case Some(f) => Some(fs + [f])
  }

  // The fields that selectTag_12 reads from a text. None where what it reads
  // is not defined: no token at all, a token longer than its row, a row that
  // was not written, a token without a value.
  function Recovered(text: seq<byte>, trCount: nat): (fs: Option<seq<Field>>)
    ensures fs.Some? ==> |fs.value| == trCount
  {
    var tokens := Tokens(CText(text), SEMICOLON);
    if tokens == [] || exists t :: t in tokens && |t| >= 256 then None
    else FieldsInRows(tokens, trCount)
  }

  predicate Plain(value: seq<byte>) {
    value != [] && 0x3b !in value && 0x3a !in value && 0 !in value
  }

  // What is written for a field, before the semicolon.
  function Written(f: Field): seq<byte> { Digits(f.id) + [COLON] + f.value }

  lemma OneDigit(b: byte, s: seq<byte>, n: nat)
    requires IsDigit(b)
    ensures DigitsValue([b] + s, n) == DigitsValue(s, 10 * n + (b - 48) as nat)
  {
    assert ([b] + s)[1..] == s;
  }

  lemma ThreeDigits(a: byte, b: byte, c: byte)
    requires IsDigit(a) && IsDigit(b) && IsDigit(c)
    ensures Atoi([a, b, c]) == 100 * (a as int - 48) + 10 * (b as int - 48) + (c as int - 48)
  {
    assert [a, b, c] == [a] + ([b] + ([c] + []));
    assert Atoi([a, b, c]) == DigitsValue([a, b, c], 0);
    hide DigitsValue, Atoi;
    OneDigit(a, [b] + ([c] + []), 0);
    OneDigit(b, [c] + [], (a - 48) as nat);
    OneDigit(c, [], 10 * (a - 48) as nat + (b - 48) as nat);
    NoDigits(10 * (10 * (a - 48) as nat + (b - 48) as nat) + (c - 48) as nat);
  }

  lemma AtoiOfDigits(n: byte)
    ensures Atoi(Digits(n)) == n as int
  {
    hide Atoi;
    ThreeDigits(48 + n / 100, 48 + n / 10 % 10, 48 + n % 10);
  }

  lemma NoDigits(n: nat)
    ensures DigitsValue([], n) == n
  {}

  lemma WrittenIsRead(f: Field)
    requires Plain(f.value)
    ensures FieldOf(Written(f)) == Some(f)
  {
    hide Tokens, Atoi, Digits;
    TokenThen(Digits(f.id), COLON, f.value);
    LastToken(f.value, COLON);
    AtoiOfDigits(f.id);
  }

  predicate AllPlain(fs: seq<Field>) { forall i :: 0 <= i < |fs| ==> Plain(fs[i].value) }

  lemma {:induction false} PlainText(fs: seq<Field>)
    requires AllPlain(fs)
    ensures NUL !in Text(fs)
    ensures var tokens := Tokens(Text(fs), SEMICOLON);
      |tokens| == |fs| && forall i :: 0 <= i < |fs| ==> tokens[i] == Written(fs[i])
  {
    hide Tokens, Digits, CText;
    if fs == [] {
      NoTokens(SEMICOLON);
    } else {
      PlainText(fs[1..]);
      CTextIsAll(fs[0].value);
      assert Text(fs) == Written(fs[0]) + [SEMICOLON] + Text(fs[1..]);
      TokenThen(Written(fs[0]), SEMICOLON, Text(fs[1..]));
    }
  }

  lemma OwnRow(i: nat, n: nat)
    requires i < n <= 256
    ensures LastWriter(0, i, n) == Some(i)
  {
    assert RowFor(0, i) == i;
    assert forall j :: 0 <= j < n ==> RowFor(0, j) == j;
  }

  lemma {:induction false} PlainFieldsInRows(fs: seq<Field>, k: nat)
    requires AllPlain(fs) && k <= |fs| <= 256
    ensures FieldsInRows(Tokens(Text(fs), SEMICOLON), k) == Some(fs[..k])
  {
    hide Tokens, FieldOf, Written, Text, LastWriter;
    if k > 0 {
      PlainFieldsInRows(fs, k - 1);
      PlainText(fs);
      OwnRow(k - 1, |fs|);
      WrittenIsRead(fs[k - 1]);
      assert fs[..k] == fs[..k - 1] + [fs[k - 1]];
    }
  }

  lemma ReadIsPlain(text: seq<byte>, token: seq<byte>)
    requires token in Tokens(CText(text), SEMICOLON) && FieldOf(token).Some?
    ensures Plain(FieldOf(token).value.value)
  {
    hide Tokens, CText;
    TokensAreClean(CText(text), SEMICOLON);
    TokensAreClean(token, COLON);
    assert FieldOf(token).value.value == Tokens(token, COLON)[1];
  }

  // Formatting and splitting again recovers all fields, id and value, if and
  // only if there are 1 to 256, and every value is not empty, holds no
  // delimiter and no NUL, and fits its row with its id.
  lemma {:induction false} FieldsRecoveredIffPlain(fs: seq<Field>)
    ensures Recovered(Text(fs), |fs|) == Some(fs)
       <==> 0 < |fs| <= 256 && AllPlain(fs) && forall i :: 0 <= i < |fs| ==> |fs[i].value| <= 251
  {
    hide Tokens, CText, FieldOf, Text, FieldsInRows, Plain;
    var tokens := Tokens(CText(Text(fs)), SEMICOLON);
    if AllPlain(fs) {
      PlainText(fs);
      CTextIsAll(Text(fs));
      assert forall i :: 0 <= i < |fs| ==> |tokens[i]| == 4 + |fs[i].value|;
      if 0 < |fs| <= 256 {
        PlainFieldsInRows(fs, |fs|);
        assert fs[..|fs|] == fs;
      }
    }
    if Recovered(Text(fs), |fs|) == Some(fs) {
      RecoveredArePlain(Text(fs), fs);
      assert fs == [] ==> tokens == [] by { PlainText([]); CTextIsAll(Text([])); }
      assert fs != [] ==> FieldInRow(tokens, |fs| - 1) == Some(fs[|fs| - 1]);
      assert forall i :: 0 <= i < |fs| ==> tokens[i] in tokens;
    }
  }

  lemma {:induction false} RecoveredArePlain(text: seq<byte>, fs: seq<Field>)
    requires Recovered(text, |fs|) == Some(fs)
    ensures AllPlain(fs)
  {
    hide Tokens, CText, FieldOf, FieldsInRows, Plain;
    var tokens := Tokens(CText(text), SEMICOLON);
    forall i | 0 <= i < |fs| ensures Plain(fs[i].value) {
      assert FieldInRow(tokens, i) == Some(fs[i]);
      ReadIsPlain(text, TokenInRow(tokens, i).value);
    }
  }

  // ----- Records

  // id, 0, time, length of the value with its NUL, value, NUL
  function Record(f: Field, time: seq<byte>): seq<byte>
    requires |time| == 4
  {
    [f.id, 0] + time + [((|f.value| + 1) % 256) as byte] + f.value + [0]
  }

  function Records(fs: seq<Field>, time: seq<byte>): seq<byte>
    requires |time| == 4
  {
    if fs == [] then [] else Records(fs[..|fs| - 1], time) + Record(fs[|fs| - 1], time)
  }

  // data_buff[..data_num]
  function Message(fs: seq<Field>, time: seq<byte>): seq<byte>
    requires |time| == 4
  {
    [(|fs| % 256) as byte] + Records(fs, time)
  }

  // 1 + the sum of 8 + length over the values
  function MessageSize(fs: seq<Field>): nat {
    if fs == [] then 1 else MessageSize(fs[..|fs| - 1]) + 8 + |fs[|fs| - 1].value|
  }

  lemma {:induction false} MessageHasSize(fs: seq<Field>, time: seq<byte>)
    requires |time| == 4
    ensures |Message(fs, time)| == MessageSize(fs)
  {
    if fs != [] {
      MessageHasSize(fs[..|fs| - 1], time);
    }
  }

  lemma SizeOfMore(fs: seq<Field>, f: Field)
    ensures MessageSize(fs + [f]) == MessageSize(fs) + 8 + |f.value| && MessageSize([]) == 1
  {
    assert (fs + [f])[..|fs|] == fs;
  }

  datatype Reading = Reading(field: Field, time: seq<byte>)

  // A reader of n records.
  function ReadRecords(n: nat, s: seq<byte>): Option<seq<Reading>> {
    if n == 0 then (if s == [] then Some([]) else None)
    else if |s| < 8 || s[1] != 0 || s[6] == 0 || |s| < 7 + s[6] as int || s[6 + s[6] as int] != 0 then None
    else
      var end := 7 + s[6] as int;
      match ReadRecords(n - 1, s[end..])
      case None => None
      case Some(more) => Some([Reading(Field(s[0], s[7..end - 1]), s[2..6])] + more)
  }

  function Stamped(fs: seq<Field>, time: seq<byte>): (readings: seq<Reading>)
    ensures |readings| == |fs| && forall i :: 0 <= i < |fs| ==> readings[i] == Reading(fs[i], time)
  {
    seq(|fs|, i requires 0 <= i < |fs| => Reading(fs[i], time))
  }

  lemma StampedFirst(fs: seq<Field>, time: seq<byte>)
    requires fs != []
    ensures Stamped(fs, time) == [Reading(fs[0], time)] + Stamped(fs[1..], time)
  {}

  lemma ReadOne(f: Field, time: seq<byte>, n: nat, rest: seq<byte>)
    requires |time| == 4 && |f.value| < 255 && ReadRecords(n, rest).Some?
    ensures ReadRecords(n + 1, Record(f, time) + rest) == Some([Reading(f, time)] + ReadRecords(n, rest).value)
  {
    var s := Record(f, time) + rest;
    assert s[6] as int == |f.value| + 1;
    assert s[8 + |f.value|..] == rest && s[7..7 + |f.value|] == f.value && s[2..6] == time;
  }

  lemma {:induction false} RecordsFirst(fs: seq<Field>, time: seq<byte>)
    requires |time| == 4 && fs != []
    ensures Records(fs, time) == Record(fs[0], time) + Records(fs[1..], time)
  {
    hide Record;
    var k := |fs| - 1;
    if k == 0 {
      assert Records(fs[..0], time) == [] == Records(fs[1..], time);
      assert Record(fs[0], time) + [] == Record(fs[0], time);
    } else {
      var first, middle, last := Record(fs[0], time), Records(fs[..k][1..], time), Record(fs[k], time);
      RecordsFirst(fs[..k], time);
      assert fs[..k][1..] == fs[1..][..k - 1];
      assert Records(fs[1..], time) == middle + last;
      assert (first + middle) + last == first + (middle + last);
    }
  }

  // Reading the records gives back the fields, for values that fit a length
  // byte.
  lemma {:induction false} RecordsRoundTrip(fs: seq<Field>, time: seq<byte>)
    requires |time| == 4 && forall i :: 0 <= i < |fs| ==> |fs[i].value| < 255
    ensures ReadRecords(|fs|, Records(fs, time)) == Some(Stamped(fs, time))
    decreases fs
  {
    if fs != [] {
      hide Record, ReadRecords, Records, Stamped;
      RecordsRoundTrip(fs[1..], time);
      RecordsFirst(fs, time);
      ReadOne(fs[0], time, |fs| - 1, Records(fs[1..], time));
      StampedFirst(fs, time);
    } else {
      assert ReadRecords(0, Records([], time)) == Some(Stamped([], time));
    }
  }


  // ----- selectTag_12 as it fills the buffer

  // The fields of the message; None too where it does not fit the buffer.
  function Tagged(text: seq<byte>, trCount: nat): (fs: Option<seq<Field>>)
    ensures fs.Some? ==> |fs.value| == trCount && MessageSize(fs.value) <= DATA_BUFF
  {
    match Recovered(text, trCount)
    case None => None
    case Some(fs) => if MessageSize(fs) <= DATA_BUFF then Some(fs) else None
  }

  // From text to what the tag server can read: which fields arrive, and that
  // the message is read as them.
  lemma {:induction false} TextToRecords(fs: seq<Field>, time: seq<byte>)
    requires |time| == 4
    ensures Tagged(Text(fs), |fs|) == Some(fs)
       <==> && fs != [] && AllPlain(fs) && (forall i :: 0 <= i < |fs| ==> |fs[i].value| <= 251)
            && MessageSize(fs) <= 1024
    ensures Tagged(Text(fs), |fs|) == Some(fs) ==> var m := Message(fs, time);
      |m| == MessageSize(fs) && ReadRecords(m[0] as nat, m[1..]) == Some(Stamped(fs, time))
  {
    hide Recovered, ReadRecords, Records, MessageSize, Text, Plain;
    FieldsRecoveredIffPlain(fs);
    MessageHasSize(fs, time);
    SizeAtLeast(fs);
    if Tagged(Text(fs), |fs|) == Some(fs) {
      RecordsRoundTrip(fs, time);
      assert Message(fs, time)[1..] == Records(fs, time);
    }
  }

  lemma {:induction false} SizeAtLeast(fs: seq<Field>)
    ensures MessageSize(fs) >= 1 + 8 * |fs|
  {
    if fs != [] {
      SizeAtLeast(fs[..|fs| - 1]);
    }
  }

  method Put(data: array<byte>, offset: nat, bytes: seq<byte>)
    requires offset + |bytes| <= data.Length
    modifies data
    ensures data[..offset + |bytes|] == old(data[..offset]) + bytes
  {
    forall i | 0 <= i < |bytes| {
      data[offset + i] := bytes[i];
    }
  }

  // The loop over strtok; parsingCnt is a UINT8 that starts at 0.
  method FillRows(text: seq<byte>) returns (parsing: array<Option<seq<byte>>>, fits: bool)
    ensures fresh(parsing) && parsing.Length == 256
    ensures var tokens := Tokens(CText(text), SEMICOLON);
      && (fits <==> tokens != [] && forall t :: t in tokens ==> |t| < 256)
      && forall i :: 0 <= i < 256 ==> parsing[i] == TokenInRow(tokens, i)
  {
    hide Tokens, CText;
    var tokens := Split(text, SEMICOLON);
    parsing := new Option<seq<byte>>[256](i => None);
    fits := tokens != [];
    var parsingCnt, j := 0, 0;
    while j < |tokens|
      invariant j <= |tokens| && parsingCnt == RowFor(0, j)
      invariant fits <==> tokens != [] && forall t :: t in tokens[..j] ==> |t| < 256
      invariant forall i :: 0 <= i < 256 ==> parsing[i] == TokenInRow(tokens[..j], i)
    {
      assert tokens[..j + 1] == tokens[..j] + [tokens[j]];
      forall i | 0 <= i < 256
        ensures TokenInRow(tokens[..j + 1], i)
             == if i == parsingCnt then Some(tokens[j]) else TokenInRow(tokens[..j], i)
      {
        NextToken(tokens, j, i);
      }
      parsing[parsingCnt] := Some(tokens[j]);
      fits := fits && |tokens[j]| < 256;
      parsingCnt := (parsingCnt + 1) % 256;
      j := j + 1;
    }
    assert tokens[..j] == tokens;
  }

  lemma NextToken(tokens: seq<seq<byte>>, j: nat, i: nat)
    requires j < |tokens| && i < 256
    ensures TokenInRow(tokens[..j + 1], i)
         == if i == RowFor(0, j) then Some(tokens[j]) else TokenInRow(tokens[..j], i)
  {}

  method SplitField(token: seq<byte>) returns (f: Option<Field>)
    requires NUL !in token
    ensures f == FieldOf(token)
  {
    hide Tokens, Atoi, CText;
    CTextIsAll(token);
    var parts := Split(token, COLON);
    f := if |parts| < 2 then None else Some(Field((Atoi(parts[0]) % 256) as byte, parts[1]));
  }

  method ReadField(text: seq<byte>, parsing: array<Option<seq<byte>>>, i: nat) returns (f: Option<Field>)
    requires parsing.Length == 256
    requires forall k :: 0 <= k < 256 ==> parsing[k] == TokenInRow(Tokens(CText(text), SEMICOLON), k)
    ensures f == FieldInRow(Tokens(CText(text), SEMICOLON), i)
  {
    hide Tokens, CText, FieldOf;
    TokensAreClean(CText(text), SEMICOLON);
    if i >= 256 || parsing[i].None? {
      return None;
    }
    f := SplitField(parsing[i].value);
  }

  // The message so far.
  function Message0(trCount: nat, fs: seq<Field>, time: seq<byte>): seq<byte>
    requires |time| == 4
  {
    [(trCount % 256) as byte] + Records(fs, time)
  }

  lemma MessageGrows(trCount: nat, fs: seq<Field>, f: Field, time: seq<byte>)
    requires |time| == 4
    ensures Message0(trCount, fs + [f], time) == Message0(trCount, fs, time) + Record(f, time)
  {
    assert (fs + [f])[..|fs|] == fs;
  }

  // One field, 12 under id 100.
  lemma MessageExample()
    ensures Message([Field(100, [0x31, 0x32])], [1, 2, 3, 4]) == [1, 100, 0, 1, 2, 3, 4, 3, 0x31, 0x32, 0]
  {
    var f, time := Field(100, [0x31, 0x32]), [1, 2, 3, 4];
    assert Record(f, time) == [100, 0, 1, 2, 3, 4, 3, 0x31, 0x32, 0];
    assert Message0(1, [], time) == [1];
    hide Record, Records;
    MessageGrows(1, [], f, time);
    assert [] + [f] == [f];
  }

  lemma NothingYet(tokens: seq<seq<byte>>)
    ensures FieldsInRows(tokens, 0) == Some([]) && MessageSize([]) == 1
  {}

  lemma OneMoreInRow(tokens: seq<seq<byte>>, i: nat, fs: seq<Field>, f: Field)
    requires FieldsInRows(tokens, i) == Some(fs) && FieldInRow(tokens, i) == Some(f)
    ensures FieldsInRows(tokens, i + 1) == Some(fs + [f])
    ensures MessageSize(fs + [f]) == MessageSize(fs) + 8 + |f.value|
  {
    SizeOfMore(fs, f);
  }

  lemma {:induction false} RowWithoutField(tokens: seq<seq<byte>>, i: nat, k: nat)
    requires i < k && FieldInRow(tokens, i) == None
    ensures FieldsInRows(tokens, k) == None
  {
    hide FieldInRow;
    if i < k - 1 {
      RowWithoutField(tokens, i, k - 1);
    }
  }

  lemma {:induction false} TooLong(tokens: seq<seq<byte>>, i: nat, k: nat)
    requires i <= k && FieldsInRows(tokens, i).Some? && MessageSize(FieldsInRows(tokens, i).value) > DATA_BUFF
    ensures FieldsInRows(tokens, k).Some? ==> MessageSize(FieldsInRows(tokens, k).value) > DATA_BUFF
  {
    hide FieldInRow, MessageSize;
    if i < k {
      TooLong(tokens, i, k - 1);
      if FieldsInRows(tokens, k).Some? {
        OneMoreInRow(tokens, k - 1, FieldsInRows(tokens, k - 1).value, FieldInRow(tokens, k - 1).value);
      }
    }
  }

  // None: what the code then does is not defined.
  method SelectTag(text: seq<byte>, trCount: nat, time: seq<byte>, data: array<byte>) returns (num: Option<nat>)
    requires |time| == 4 && data.Length == DATA_BUFF
    modifies data
    ensures match Tagged(text, trCount)
      case None => num == None
      case Some(fs) => num == Some(MessageSize(fs)) && data[..MessageSize(fs)] == Message(fs, time)
  {
    hide FieldOf, Tokens, CText, TokenInRow, MessageSize, FieldsInRows;
    ghost var tokens := Tokens(CText(text), SEMICOLON);
    var parsing, fits := FillRows(text);
    if !fits {
      return None;
    }
    data[0] := (trCount % 256) as byte;
    var offset, i := 1, 0;
    ghost var fs: seq<Field> := [];
    NothingYet(tokens);
    while i < trCount
      invariant i <= trCount && FieldsInRows(tokens, i) == Some(fs)
      invariant forall k :: 0 <= k < 256 ==> parsing[k] == TokenInRow(tokens, k)
      invariant offset == MessageSize(fs) <= DATA_BUFF
      invariant data[..offset] == Message0(trCount, fs, time)
    {
      var f := ReadField(text, parsing, i);
      if f == None {
        RowWithoutField(tokens, i, trCount);
        return None;
      }
      OneMoreInRow(tokens, i, fs, f.value);
      var size := 8 + |f.value.value|;
      if offset + size > DATA_BUFF {
        TooLong(tokens, i + 1, trCount);
        return None;
      }
      MessageGrows(trCount, fs, f.value, time);
      Put(data, offset, Record(f.value, time));
      offset := offset + size;
      fs := fs + [f.value];
      i := i + 1;
    }
    num := Some(offset);
  }

  // ----- From a frame to the tag server

  // The fields of a frame that the tag server gets.
  function Delivered(frame: seq<byte>): Option<seq<Field>>
    requires |frame| < FRAME_BUFFER
  {
    match FieldsIn(Stored(ColumnTokens(frame)), 69)
    case None => None
    case Some(fs) => Tagged(Text(fs), |fs|)
  }

  method HandleFrame(setBuffer: seq<byte>, time: seq<byte>, data: array<byte>) returns (num: Option<nat>)
    requires |setBuffer| < FRAME_BUFFER && |time| == 4 && data.Length == DATA_BUFF
    modifies data
    ensures match Delivered(setBuffer)
      case None => num == None
      case Some(fs) => num == Some(MessageSize(fs)) && data[..MessageSize(fs)] == Message(fs, time)
  {
    hide FieldsIn, ColumnTokens, Stored, Tagged, Text, Message, MessageSize;
    var setString, trCount := FormatFields(setBuffer);
    if setString == None {
      return None;
    }
    num := SelectTag(setString.value, trCount, time, data);
  }

  // What a frame must be for the tag server to get its fields.
  ghost predicate Deliverable(columns: seq<seq<byte>>)
    requires [] !in columns
  {
    && |columns| >= 77
    && (forall j :: 0 <= j < 77 ==> 0 !in columns[j])
    && (forall r :: Used(r) ==> |columns[r - 1]| <= 31)
    && AllPlain(FieldsFrom(columns, 69))
    && MessageSize(FieldsFrom(columns, 69)) <= 1024
  }

  lemma ColumnsAsTokens(frame: seq<byte>)
    requires |frame| < FRAME_BUFFER
    ensures ColumnTokens(frame) == NonEmpty(Cut(Columns(frame, COMMA)))
  {
    ColumnsOfCText(frame, COMMA);
    TokensAreNonEmptyColumns(CText(frame), COMMA);
  }

  lemma {:induction false} FieldsAreShort(columns: seq<seq<byte>>, k: nat)
    requires k <= 69 && |columns| >= 77 && [] !in columns && forall r :: Used(r) ==> |columns[r - 1]| < ROW
    ensures |FieldsFrom(columns, k)| == k - if k >= 54 then 1 else 0
    ensures forall f :: f in FieldsFrom(columns, k) ==> |f.value| < ROW
  {
    hide Trim;
    if k > 0 {
      FieldsAreShort(columns, k - 1);
      assert k != 54 ==> Used(8 + k);
    }
  }

  lemma TokensDoNotComeBack(ts: seq<seq<byte>>, columns: seq<seq<byte>>)
    requires |ts| <= |columns| && (forall j :: 0 <= j < |ts| ==> ts[j] <= columns[j]) && NoneComesBack(columns)
    ensures NoneComesBack(ts)
  {
    hide RowFor;
    forall j | 0 <= j < |ts| ensures !ComesBack(j, |ts[j]|) {
      assert !ComesBack(j, |columns[j]|);
    }
  }

  lemma RowsHoldColumns(frame: seq<byte>)
    requires |frame| < FRAME_BUFFER
    requires var columns := Columns(frame, COMMA); [] !in columns && NoneComesBack(columns) && Deliverable(columns)
    ensures var columns, mem := Columns(frame, COMMA), Stored(ColumnTokens(frame));
      forall r :: Used(r) ==> Row(mem, r) == Some(columns[r - 1])
  {
    hide Columns, ColumnTokens, Stored, Row, FieldsFrom, MessageSize, NoneComesBack, AllPlain;
    var columns, ts := Columns(frame, COMMA), ColumnTokens(frame);
    ColumnsAsTokens(frame);
    CutColumns(columns, 77);
    TokensDoNotComeBack(ts, columns);
    forall r: nat | Used(r) ensures Row(Stored(ts), r) == Some(columns[r - 1]) {
      RowHoldsToken(ts, r);
      assert ts[r - 1] == ts[..77][r - 1] == columns[..77][r - 1];
    }
  }

  lemma DeliverableArrives(frame: seq<byte>)
    requires |frame| < FRAME_BUFFER
    requires var columns := Columns(frame, COMMA); [] !in columns && NoneComesBack(columns) && Deliverable(columns)
    ensures Delivered(frame) == Some(FieldsFrom(Columns(frame, COMMA), 69))
  {
    hide Columns, ColumnTokens, Stored, Row, FieldsIn, FieldsFrom, Tagged, Text, MessageSize, NoneComesBack, Plain;
    var columns := Columns(frame, COMMA);
    RowsHoldColumns(frame);
    RowsGiveFields(Stored(ColumnTokens(frame)), columns, 69);
    FieldsAreShort(columns, 69);
    TextToRecords(FieldsFrom(columns, 69), [0, 0, 0, 0]);
  }

  // A NUL in a column of the frame, or a column that does not fit its row,
  // does not go unnoticed.
  lemma ArrivesWithoutNul(frame: seq<byte>, j: nat)
    requires |frame| < FRAME_BUFFER && j < 77
    requires var columns := Columns(frame, COMMA);
      [] !in columns && |columns| >= 77 && Delivered(frame) == Some(FieldsFrom(columns, 69))
    ensures NUL !in Columns(frame, COMMA)[j]
  {
    hide Columns, ColumnTokens, Stored, Row, Readable, FieldsIn, FieldsFrom, Recovered, Text, MessageSize, Trim;
    var columns, ts := Columns(frame, COMMA), ColumnTokens(frame);
    if NUL in columns[j] {
      if Used(j + 1) {
        ArrivedIsPlain(frame, FieldsFrom(columns, 69));
        FieldOfColumn(columns, j - 7, 69);
        assert false;
      } else {
        ColumnsAsTokens(frame);
        CutColumns(columns, 0);
        var r := SomeRowUnreadable(ts);
        UnreadableRow(Stored(ts), r - 8, 69);
        assert false;
      }
    }
  }

  lemma ArrivedIsPlain(frame: seq<byte>, fs: seq<Field>)
    requires |frame| < FRAME_BUFFER && Delivered(frame) == Some(fs)
    ensures AllPlain(fs) && MessageSize(fs) <= DATA_BUFF
  {
    hide ColumnTokens, Stored, FieldsIn, Recovered, Text, MessageSize, Plain;
    RecoveredArePlain(Text(FieldsIn(Stored(ColumnTokens(frame)), 69).value), fs);
  }

  lemma ArrivesIfDeliverable(frame: seq<byte>)
    requires |frame| < FRAME_BUFFER
    requires var columns := Columns(frame, COMMA);
      && [] !in columns && NoneComesBack(columns)
      && |columns| >= 77 && Delivered(frame) == Some(FieldsFrom(columns, 69))
    ensures Deliverable(Columns(frame, COMMA))
  {
    hide Columns, ColumnTokens, Stored, Row, FieldsIn, FieldsFrom, Tagged, Text, MessageSize, NoneComesBack, Plain;
    var columns, ts := Columns(frame, COMMA), ColumnTokens(frame);
    forall j | 0 <= j < 77 ensures NUL !in columns[j] {
      ArrivesWithoutNul(frame, j);
    }
    ArrivedIsPlain(frame, FieldsFrom(columns, 69));
    ColumnsAsTokens(frame);
    CutColumns(columns, 77);
    TokensDoNotComeBack(ts, columns);
    forall r: nat | Used(r) ensures |columns[r - 1]| < ROW {
      RowHoldsToken(ts, r);
      assert ts[r - 1] == ts[..77][r - 1] == columns[..77][r - 1];
      if |columns[r - 1]| >= ROW {
        UnreadableRow(Stored(ts), r - 8, 69);
        assert false;
      }
    }
  }

  // For every frame without an empty column and of which no column comes back
  // to the rows that are read: the tag server gets the trimmed columns under
  // their ids, all of them and nothing else, exactly if there are 77 columns,
  // no NUL in them, those read have at most 31 bytes, no ';' or ':' is left
  // after trimming, and the message fits its buffer.
  lemma {:induction false} FrameDelivered(frame: seq<byte>)
    requires |frame| < 10240
    requires var columns := Columns(frame, 0x2c); [] !in columns && NoneComesBack(columns)
    ensures var columns := Columns(frame, 0x2c);
      |columns| >= 77 && Delivered(frame) == Some(FieldsFrom(columns, 69)) <==> Deliverable(columns)
  {
    hide Columns, Delivered, FieldsFrom, NoneComesBack, MessageSize, Plain;
    var columns := Columns(frame, COMMA);
    if Deliverable(columns) {
      DeliverableArrives(frame);
    } else if |columns| >= 77 && Delivered(frame) == Some(FieldsFrom(columns, 69)) {
      ArrivesIfDeliverable(frame);
      assert false;
    }
  }

  // The columns in rows 1 to 77 when all are short: each row has the last one
  // copied to it.
  function LastInRows(columns: seq<seq<byte>>): (cs: seq<seq<byte>>)
    requires |columns| >= 77
    ensures |cs| == 77
  {
    seq(77, i requires 0 <= i < 77 => LastInRow(columns, i + 1))
  }

  function LastInRow(columns: seq<seq<byte>>, r: nat): (c: seq<byte>)
    requires 1 <= r <= 77 <= |columns|
    ensures c in columns && LastWriter(1, r, |columns|).Some?
  {
    assert RowFor(1, r - 1) == r;
    columns[LastWriter(1, r, |columns|).value]
  }

  // Frames with any number of columns: what arrives when each fits its row.
  lemma {:induction false} ShortColumnsArrive(frame: seq<byte>)
    requires |frame| < 10240 && 0 !in frame
    requires var columns := Columns(frame, 0x2c);
      |columns| >= 77 && [] !in columns && forall i :: 0 <= i < |columns| ==> |columns[i]| <= 31
    ensures var fs := FieldsFrom(LastInRows(Columns(frame, 0x2c)), 69);
      Delivered(frame) == Some(fs) <==> AllPlain(fs) && MessageSize(fs) <= 1024
  {
    hide Columns, Tokens, Stored, Row, FieldsIn, FieldsFrom, Tagged, Text, MessageSize, Plain, LastWriter;
    var columns := Columns(frame, COMMA);
    ColumnsInPlaceIff(frame, COMMA);
    assert ColumnTokens(frame) == columns;
    var last := LastInRows(columns);
    forall r: nat | Used(r) ensures Row(Stored(columns), r) == Some(last[r - 1]) {
      RowHoldsLast(columns, r);
      assert last[r - 1] == LastInRow(columns, r);
    }
    RowsGiveFields(Stored(columns), last, 69);
    FieldsAreShort(last, 69);
    TextToRecords(FieldsFrom(last, 69), [0, 0, 0, 0]);
  }

  // 265 columns: the two that the header opens, 262 times 1, and 2.
  function MostlyOnes(): (columns: seq<seq<byte>>)
    ensures |columns| == 265 && columns[264] == [50]
    ensures forall i :: 0 <= i < 265 ==> 0 < |columns[i]| <= 3 && COMMA !in columns[i] && NUL !in columns[i]
    ensures forall i :: 8 <= i < 264 ==> columns[i] == [49]
  {
    [[34, 58, 34], [51, 51]] + seq(262, i => [49]) + [[50]]
  }

  predicate OneOrTwo(c: seq<byte>) { c == [49] || c == [50] }

  lemma OneIsPlain(c: seq<byte>)
    requires OneOrTwo(c)
    ensures Trim(c) == c && Plain(c) && |c| == 1
  {
    assert !Blank(c[0]);
  }

  lemma {:induction false} OnesArePlain(columns: seq<seq<byte>>, k: nat)
    requires |columns| >= 77 && [] !in columns && 1 <= k <= 69
    requires forall i :: 8 <= i < 77 ==> OneOrTwo(columns[i])
    ensures var fs := FieldsFrom(columns, k);
      && |fs| == k - (if k >= 54 then 1 else 0)
      && AllPlain(fs) && MessageSize(fs) == 1 + 9 * |fs| && fs[0] == Field(100, columns[8])
  {
    hide Trim, MessageSize, Plain, OneOrTwo;
    OneIsPlain(columns[7 + k]);
    var f := Field((99 + k) as byte, Trim(columns[7 + k]));
    if k == 1 {
      assert FieldsFrom(columns, 1) == [] + [f] == [f];
      SizeOfMore([], f);
    } else {
      OnesArePlain(columns, k - 1);
      SizeOfMore(FieldsFrom(columns, k - 1), f);
    }
  }

  // The last row that is written twice.
  lemma RowNineIsLast(columns: seq<seq<byte>>)
    requires columns == MostlyOnes()
    ensures LastInRows(columns)[8] == [50]
    ensures forall i :: 8 <= i < 77 ==> OneOrTwo(LastInRows(columns)[i])
    ensures [] !in columns && [] !in LastInRows(columns)
  {
    hide LastWriter, MostlyOnes;
    assert RowFor(1, 264) == 9;
    assert LastInRows(columns)[8] == LastInRow(columns, 9);
    forall i | 8 <= i < 77 ensures OneOrTwo(LastInRows(columns)[i]) {
      assert LastInRows(columns)[i] == LastInRow(columns, i + 1);
      var w := LastWriter(1, i + 1, 265);
      assert RowFor(1, w.value) == i + 1;
      assert w.value >= 8;
    }
  }

  // A frame of 265 columns: the last one ends up under id 100.
  lemma {:induction false} ColumnTooMany() returns (frame: seq<byte>)
    ensures |frame| < FRAME_BUFFER && |Columns(frame, COMMA)| == 265 && [] !in Columns(frame, COMMA)
    ensures Delivered(frame).Some? && |Delivered(frame).value| == 68
    ensures Delivered(frame).value[0] == Field(100, [50])
    ensures FieldsFrom(Columns(frame, COMMA), 69)[0] == Field(100, [49])
  {
    hide Columns, Delivered, LastInRows, FieldsFrom, MostlyOnes, MessageSize, Plain;
    var columns := MostlyOnes();
    frame := Joined(columns, COMMA);
    ColumnsOfJoined(columns, COMMA);
    JoinedBytes(columns, COMMA);
    ShortColumnsArrive(frame);
    RowNineIsLast(columns);
    OnesArePlain(LastInRows(columns), 69);
    OnesArePlain(columns, 69);
  }
}
