/** The QRIS payload codec of utils/qris.ts: the merchant-name lookup and the conversion
    of a static payload into a dynamic one carrying an amount. A payload is a run of
    data objects, each a 2-character id, a 2-digit decimal length and a value. */
module Qris {
  import opened JsBuiltins
  import opened Crc

  /** One decoded data object: { id, length, value }. The length is what parseInt made of
      the length digits, so it may be NaN or disagree with the value's length. */
  datatype Field = Field(id: string, length: Num, value: string)

  // ---------------------------------------------------------------------------
  // The cursor walk shared by getMerchantName and convertToDynamicQRIS

  /** The data object whose header starts at index: the id is the next two characters,
      the length is parseInt (without a radix) of the two after them (ParseTwo, which
      ParseTwoAgrees shows is that parseInt on two characters), and the value is the run of `length`
      characters after the header, cut short by the end of the payload. */
  function ReadField(payload: string, index: nat): Field {
    var id := Substring(payload, index, index + 2);
    var length := ParseTwo(Substring(payload, index + 2, index + 4));
    var value := SubstringTo(payload, index + 4, Add(index + 4, length));
    Field(id, length, value)
  }

  /** A field read at index: its id is the two characters there, its length is NaN or
      below 100, and its value is the run of `length` characters after the header, cut
      short by the end of the payload; with a NaN length the value is everything before
      the value's start, since substring reads NaN as 0 and swaps its ends. */
  lemma ReadFieldSpec(payload: string, index: nat)
    ensures var f, len := ReadField(payload, index), |payload|;
      && f.id == payload[Clamp(index, len)..Clamp(index + 2, len)]
      && (f.length.Int? ==>
            f.length.value < 100
            && f.value == payload[Clamp(index + 4, len)..Clamp(index + 4 + f.length.value, len)])
      && (f.length.NaN? ==> f.value == payload[..Clamp(index + 4, len)])
  {
  }

  /** The fields the walk pushes from cursor index on: it stops once the cursor reaches the
      end of the payload, and after a field whose length is NaN (the cursor becomes NaN). */
  function DecodeFrom(payload: string, index: nat): seq<Field>
    decreases |payload| - index
  {
    if index >= |payload| then []
    else
      var f := ReadField(payload, index);
      match Add(index + 4, f.length)
      case Int(next) => [f] + DecodeFrom(payload, next)
      case NaN => [f]
  }

  /** The fields still to come for a cursor that may be NaN. */
  function Rest(payload: string, index: Num): seq<Field> {
    if index.Int? then DecodeFrom(payload, index.value) else []
  }

  /** One step of the walk: the field at the cursor, then the fields from the next cursor. */
  lemma DecodeStep(payload: string, index: nat)
    requires index < |payload|
    ensures var f := ReadField(payload, index);
      DecodeFrom(payload, index) == [f] + Rest(payload, Add(index + 4, f.length))
  {
  }

  /** The decoding step of convertToDynamicQRIS: the walk from cursor 0. */
  function Decode(payload: string): seq<Field> {
    DecodeFrom(payload, 0)
  }

  // ---------------------------------------------------------------------------
  // getMerchantName

  /** The three reads both loops make at the cursor: the id, parseInt of the length
      digits, and the value they announce. */
  method ReadAt(payload: string, i: nat) returns (id: string, length: Num, value: string)
    ensures Field(id, length, value) == ReadField(payload, i)
  {
    id := Substring(payload, i, i + 2);
    length := ParseIntNoRadix(Substring(payload, i + 2, i + 4));
    SubstringWidth(payload, i + 2, i + 4);
    ParseTwoAgrees(Substring(payload, i + 2, i + 4));
    value := SubstringTo(payload, i + 4, Add(i + 4, length));
  }

  const UnknownMerchant := "Unknown Merchant"

  /** The value of the first field with id "59", or "Unknown Merchant" when there is none. */
  function MerchantNameIn(fields: seq<Field>): string {
    if fields == [] then UnknownMerchant
    else if fields[0].id == "59" then fields[0].value
    else MerchantNameIn(fields[1..])
  }

  predicate IsMerchantName(f: Field) {
    f.id == "59"
  }

  /** MerchantNameIn picks the first "59" field the walk meets. */
  lemma {:induction false} MerchantNameIsFirst(fields: seq<Field>)
    ensures var k := FindIndex(fields, IsMerchantName);
            MerchantNameIn(fields) == if k >= 0 then fields[k].value else UnknownMerchant
  {
    if fields != [] && fields[0].id != "59" {
      MerchantNameIsFirst(fields[1..]);
      var k := FindIndex(fields[1..], IsMerchantName);
      assert FindIndex(fields, IsMerchantName) == if k == -1 then -1 else k + 1;
    }
  }

  /** getMerchantName: the same cursor walk, returning the first "59" value it meets. */
  method GetMerchantName(payload: string) returns (name: string)
    ensures name == MerchantNameIn(Decode(payload))
  {
    var index: Num := Int(0);
    while index.Int? && index.value < |payload|
      invariant MerchantNameIn(Rest(payload, index)) == MerchantNameIn(Decode(payload))
      decreases if index.Int? && index.value <= |payload| then |payload| - index.value else 0
    {
      var i := index.value;
      var id, length, value := ReadAt(payload, i);
      DecodeStep(payload, i);
      if id == "59" {
        return value;
      }
      index := Add(i + 4, length);
    }
    return UnknownMerchant;
  }

  /** A payload that is only "59": the length digits are missing, so the length is NaN,
      the value is the two characters before the value's start, and the walk ends there.
      getMerchantName then returns "59". */
  lemma HeaderOnlyPayload()
    ensures Decode("59") == [Field("59", NaN, "59")]
    ensures MerchantNameIn(Decode("59")) == "59"
  {
    assert Substring("59", 2, 4) == [];
    assert Substring("59", 0, 2) == "59";
    assert ReadField("59", 0) == Field("59", NaN, "59");
  }

  /** A length written "0x" is NaN, as parseInt without a radix reads it, so the walk
      stops after that field and its value is everything before the value's start. */
  lemma HexPrefixedLength()
    ensures Decode("590x") == [Field("59", NaN, "590x")]
    ensures MerchantNameIn(Decode("590x")) == "590x"
  {
    assert Substring("590x", 2, 4) == "0x";
    assert Substring("590x", 0, 2) == "59";
    assert Substring("590x", 4, 0) == "590x";
    assert ReadField("590x", 0) == Field("59", NaN, "590x");
  }

  // ---------------------------------------------------------------------------
  // convertToDynamicQRIS: the edits

  predicate IsPointOfInitiation(f: Field) {
    f.id == "01"
  }

  predicate IsCurrency(f: Field) {
    f.id == "53"
  }

  /** The filter that drops every amount ("54") and checksum ("63") field. */
  predicate Kept(f: Field) {
    f.id != "54" && f.id != "63"
  }

  /** parts.find(p => p.id === '01'), and when there is one, its value set to "12" in
      place; its length is left as it was. */
  function MarkDynamic(fields: seq<Field>): seq<Field> {
    var k := FindIndex(fields, IsPointOfInitiation);
    if k == -1 then fields else fields[k := fields[k].(value := "12")]
  }

  /** Only the first "01" field changes, only in its value, and it becomes "12"; every
      other field, and every id and length, is kept; no field is added. */
  lemma MarkDynamicSpec(fields: seq<Field>)
    ensures var r := MarkDynamic(fields);
      && |r| == |fields|
      && (forall j :: 0 <= j < |r| ==> r[j].id == fields[j].id && r[j].length == fields[j].length)
      && (forall j :: 0 <= j < |r| && r[j] != fields[j] ==>
            fields[j].id == "01" && r[j].value == "12" && forall i :: 0 <= i < j ==> fields[i].id != "01")
      && (forall j :: 0 <= j < |r| && fields[j].id == "01" && (forall i :: 0 <= i < j ==> fields[i].id != "01") ==>
            r[j].value == "12")
  {
  }

  /** parts.filter(p => p.id !== '54' && p.id !== '63'). */
  function StripStale(fields: seq<Field>): seq<Field> {
    Filter(fields, Kept)
  }

  /** The pushed amount field: { id: '54', length: amountStr.length, value: amountStr }. */
  function AmountField(amount: nat): Field {
    var text := Decimal(amount);
    Field("54", Int(|text|), text)
  }

  /** Push the amount field; then, when some field has id "53", pop it again and splice it
      in right after the first such field. */
  function InsertAmount(fields: seq<Field>, amount: nat): seq<Field> {
    var pushed := fields + [AmountField(amount)];
    var currencyIndex := FindIndex(pushed, IsCurrency);
    if currencyIndex == -1 then pushed
    else
      var popped := pushed[..|pushed| - 1];
      popped[..currencyIndex + 1] + [pushed[|pushed| - 1]] + popped[currencyIndex + 1..]
  }

  /** Where InsertAmount puts the amount field: after the first "53" field, or last. */
  function AmountPosition(fields: seq<Field>): (p: nat)
    ensures p <= |fields|
  {
    var c := FindIndex(fields, IsCurrency);
    if c == -1 then |fields| else c + 1
  }

  /** InsertAmount splits the fields at AmountPosition and puts the amount field there. */
  lemma InsertAmountShape(fields: seq<Field>, amount: nat)
    ensures var p := AmountPosition(fields);
      InsertAmount(fields, amount) == fields[..p] + [AmountField(amount)] + fields[p..]
  {
    var x := AmountField(amount);
    var pushed := fields + [x];
    var c := FindIndex(fields, IsCurrency);
    FindIndexAppend(fields, x, IsCurrency);
    assert FindIndex(pushed, IsCurrency) == c;
    if c != -1 {
      assert pushed[..|pushed| - 1] == fields;
    } else {
      assert fields[..|fields|] == fields && fields[|fields|..] == [];
    }
  }

  /** InsertAmount puts the amount field at AmountPosition and leaves every other field
      in its original relative order. */
  lemma InsertAmountSpec(fields: seq<Field>, amount: nat)
    ensures var r, p := InsertAmount(fields, amount), AmountPosition(fields);
      && |r| == |fields| + 1
      && r[p] == AmountField(amount)
      && r[..p] + r[p + 1..] == fields
  {
    var r, p := InsertAmount(fields, amount), AmountPosition(fields);
    InsertAmountShape(fields, amount);
    assert r[..p] == fields[..p];
    assert r[p + 1..] == fields[p..];
    assert fields[..p] + fields[p..] == fields;
  }

  /** After the filter no amount or checksum field is left, and every other field is. */
  lemma StripStaleSpec(fields: seq<Field>)
    ensures forall j :: 0 <= j < |StripStale(fields)| ==>
      StripStale(fields)[j].id != "54" && StripStale(fields)[j].id != "63"
    ensures forall j :: 0 <= j < |fields| && Kept(fields[j]) ==> fields[j] in StripStale(fields)
  {
    FilterKept(fields, Kept);
    FilterKeepsPassing(fields, Kept);
  }

  /** Inserted into fields without an amount field, the amount field is the only one. */
  lemma InsertAmountUnique(fields: seq<Field>, amount: nat)
    requires forall j :: 0 <= j < |fields| ==> fields[j].id != "54" && fields[j].id != "63"
    ensures var r, p := InsertAmount(fields, amount), AmountPosition(fields);
      forall j :: 0 <= j < |r| ==> (r[j].id == "54" <==> j == p) && r[j].id != "63"
  {
    InsertAmountSpec(fields, amount);
    var r, p := InsertAmount(fields, amount), AmountPosition(fields);
    forall j | 0 <= j < |r| && j != p
      ensures r[j].id != "54" && r[j].id != "63"
    {
      if j < p {
        assert r[j] == (r[..p] + r[p + 1..])[j];
      } else {
        assert r[j] == (r[..p] + r[p + 1..])[j - 1];
      }
    }
  }

  /** The amount field follows the first "53" field; with no "53" field it comes last. */
  lemma AmountPlacement(fields: seq<Field>, amount: nat)
    ensures var r, p := InsertAmount(fields, amount), AmountPosition(fields);
      && ((exists i :: 0 <= i < |fields| && fields[i].id == "53") ==>
            p >= 1 && r[p - 1].id == "53" && forall i :: 0 <= i < p - 1 ==> r[i].id != "53")
      && ((forall i :: 0 <= i < |fields| ==> fields[i].id != "53") ==> p == |r| - 1)
  {
    var r, p := InsertAmount(fields, amount), AmountPosition(fields);
    InsertAmountShape(fields, amount);
    var c := FindIndex(fields, IsCurrency);
    forall i | 0 <= i < p
      ensures r[i] == fields[i]
    {
      assert r[i] == fields[..p][i];
    }
    if c != -1 {
      assert IsCurrency(fields[c]);
    } else {
      assert forall i :: 0 <= i < |fields| ==> !IsCurrency(fields[i]);
    }
  }

  /** The three edits in the order the code makes them. */
  function Edited(fields: seq<Field>, amount: nat): seq<Field> {
    InsertAmount(StripStale(MarkDynamic(fields)), amount)
  }

  /** After the edits there is exactly one "54" field, holding the decimal amount, and no
      "63" field; taking the amount out leaves the other fields in their order. */
  lemma EditedSpec(fields: seq<Field>, amount: nat)
    ensures var s := StripStale(MarkDynamic(fields));
      var r, p := Edited(fields, amount), AmountPosition(s);
      && r[p].value == Decimal(amount)
      && (forall j :: 0 <= j < |r| ==> (r[j].id == "54" <==> j == p) && r[j].id != "63")
      && r[..p] + r[p + 1..] == s
  {
    var s := StripStale(MarkDynamic(fields));
    StripStaleSpec(MarkDynamic(fields));
    InsertAmountSpec(s, amount);
    InsertAmountUnique(s, amount);
  }

  // ---------------------------------------------------------------------------
  // convertToDynamicQRIS: serialisation and the checksum

  /** The length as serialised: value.length.toString().padStart(2, '0'). */
  function LengthText(value: string): string {
    PadStart(Decimal(|value|), 2, '0')
  }

  /** One field as serialised: id, then the length re-derived from the value, then the value. */
  function EncodeField(f: Field): string {
    f.id + LengthText(f.value) + f.value
  }

  /** The fields serialised one after another. */
  function Serialize(fields: seq<Field>): string {
    if fields == [] then "" else Serialize(fields[..|fields| - 1]) + EncodeField(fields[|fields| - 1])
  }

  /** Serialising one more field appends its encoding. */
  lemma SerializePrefix(fields: seq<Field>, j: nat)
    requires j < |fields|
    ensures Serialize(fields[..j + 1]) == Serialize(fields[..j]) + EncodeField(fields[j])
  {
    assert fields[..j + 1][..j] == fields[..j];
  }

  /** Serialising a non-empty run of fields starts with the first field. */
  lemma {:induction false} SerializeCons(fields: seq<Field>)
    requires fields != []
    ensures Serialize(fields) == EncodeField(fields[0]) + Serialize(fields[1..])
    decreases |fields|
  {
    if |fields| > 1 {
      var init := fields[..|fields| - 1];
      SerializeCons(init);
      assert init[1..] == fields[1..][..|fields[1..]| - 1];
      assert fields[1..][|fields[1..]| - 1] == fields[|fields| - 1];
    } else {
      assert fields[..0] == [] && fields[1..] == [];
    }
  }

  /** Serialising fields and one more appends its encoding. */
  lemma SerializeSnoc(fields: seq<Field>, f: Field)
    ensures Serialize(fields + [f]) == Serialize(fields) + EncodeField(f)
  {
    assert (fields + [f])[..|fields|] == fields;
  }

  /** The fields the serialiser can write so that they read back: a 2-character id and a
      value short enough for a 2-digit length. */
  predicate WellFormed(fields: seq<Field>) {
    forall j :: 0 <= j < |fields| ==> |fields[j].id| == 2 && |fields[j].value| < 100
  }

  /** A field with its length set to its value's length, as the serialiser writes it. */
  function Refresh(f: Field): Field {
    f.(length := Int(|f.value|))
  }

  function Refreshed(fields: seq<Field>): (r: seq<Field>)
    ensures |r| == |fields|
  {
    if fields == [] then [] else [Refresh(fields[0])] + Refreshed(fields[1..])
  }

  /** Reading at the start of a serialised well-formed field gives the field back, with
      its length re-derived. */
  lemma ReadEncoded(prefix: string, f: Field, suffix: string)
    requires |f.id| == 2 && |f.value| < 100
    ensures ReadField(prefix + EncodeField(f) + suffix, |prefix|) == Refresh(f)
  {
    var payload := prefix + EncodeField(f) + suffix;
    var len := LengthText(f.value);
    TwoDigitRoundTrip(|f.value|);
    assert payload == prefix + f.id + (len + f.value + suffix);
    SubstringOfConcat(prefix, f.id, len + f.value + suffix, |prefix|, |prefix| + 2);
    assert payload == (prefix + f.id) + len + (f.value + suffix);
    SubstringOfConcat(prefix + f.id, len, f.value + suffix, |prefix| + 2, |prefix| + 4);
    assert payload == (prefix + f.id + len) + f.value + suffix;
    SubstringOfConcat(prefix + f.id + len, f.value, suffix, |prefix| + 4, |prefix| + 4 + |f.value|);
  }

  /** One step of the walk at a field with a numeric length. */
  lemma DecodeAt(payload: string, index: nat, n: nat)
    requires index < |payload| && ReadField(payload, index).length == Int(n)
    ensures DecodeFrom(payload, index) == [ReadField(payload, index)] + DecodeFrom(payload, index + 4 + n)
  {
    var f := ReadField(payload, index);
    match Add(index + 4, f.length)
    case Int(next) =>
      assert next == index + 4 + n;
  }

  lemma WellFormedTail(fields: seq<Field>)
    requires fields != [] && WellFormed(fields)
    ensures WellFormed(fields[1..])
  {
    forall j | 0 <= j < |fields| - 1
      ensures |fields[1..][j].id| == 2 && |fields[1..][j].value| < 100
    {
      assert fields[1..][j] == fields[j + 1];
    }
  }

  /** The walk over serialised well-formed fields, from wherever they start, reads them
      all back. */
  lemma {:induction false} DecodeSerialized(prefix: string, fields: seq<Field>)
    requires WellFormed(fields)
    ensures DecodeFrom(prefix + Serialize(fields), |prefix|) == Refreshed(fields)
    decreases |fields|
  {
    if fields == [] {
      assert prefix + Serialize(fields) == prefix;
    } else {
      var f, rest := fields[0], fields[1..];
      var head := prefix + EncodeField(f);
      var payload := prefix + Serialize(fields);
      SerializeCons(fields);
      assert payload == head + Serialize(rest);
      ReadEncoded(prefix, f, Serialize(rest));
      TwoDigitRoundTrip(|f.value|);
      assert |head| == |prefix| + 4 + |f.value|;
      DecodeAt(payload, |prefix|, |f.value|);
      WellFormedTail(fields);
      DecodeSerialized(head, rest);
    }
  }

  /** Decoding undoes serialising, for well-formed fields. */
  lemma DecodeSerialize(fields: seq<Field>)
    requires WellFormed(fields)
    ensures Decode(Serialize(fields)) == Refreshed(fields)
  {
    DecodeSerialized("", fields);
    assert "" + Serialize(fields) == Serialize(fields);
  }

  /** A payload made, from index on, of complete data objects: each has two characters of
      id, two decimal digits of length, and a value of that length inside the payload. */
  predicate WholeFrom(payload: string, index: nat)
    decreases |payload| - index
  {
    if index >= |payload| then index == |payload|
    else
      && index + 4 <= |payload|
      && IsDecimalDigit(payload[index + 2]) && IsDecimalDigit(payload[index + 3])
      && var n := DigitValue(payload[index + 2]) * 10 + DigitValue(payload[index + 3]);
         index + 4 + n <= |payload| && WholeFrom(payload, index + 4 + n)
  }

  /** The field the walk reads at the start of a complete data object. */
  lemma ReadWhole(payload: string, index: nat)
    requires index < |payload| && WholeFrom(payload, index)
    ensures var n := DigitValue(payload[index + 2]) * 10 + DigitValue(payload[index + 3]);
      ReadField(payload, index)
        == Field(payload[index..index + 2], Int(n), payload[index + 4..index + 4 + n])
  {
    var n := DigitValue(payload[index + 2]) * 10 + DigitValue(payload[index + 3]);
    SubstringInRange(payload, index, index + 2);
    SubstringInRange(payload, index + 2, index + 4);
    var t := payload[index + 2..index + 4];
    assert t[0] == payload[index + 2] && t[1] == payload[index + 3];
    assert ParseTwo(t) == Int(n);
    SubstringInRange(payload, index + 4, index + 4 + n);
  }

  /** Serialising what the walk decodes from a run of complete data objects gives the run
      back, character for character. */
  lemma {:induction false} SerializeDecodedFrom(payload: string, index: nat)
    requires WholeFrom(payload, index)
    ensures Serialize(DecodeFrom(payload, index)) == payload[index..]
    decreases |payload| - index
  {
    if index < |payload| {
      var a, b := payload[index + 2], payload[index + 3];
      var n := DigitValue(a) * 10 + DigitValue(b);
      var f := ReadField(payload, index);
      ReadWhole(payload, index);
      DecodeAt(payload, index, n);
      var rest := DecodeFrom(payload, index + 4 + n);
      SerializeDecodedFrom(payload, index + 4 + n);
      SerializeCons([f] + rest);
      assert ([f] + rest)[1..] == rest;
      TwoDigitText(a, b);
      EncodeWhole(payload, index, n, f);
    }
  }

  /** The encoding of a complete data object, followed by what comes after it, is the
      payload from the object on. */
  lemma EncodeWhole(payload: string, index: nat, n: nat, f: Field)
    requires index + 4 + n <= |payload|
    requires f == Field(payload[index..index + 2], Int(n), payload[index + 4..index + 4 + n])
    requires LengthText(f.value) == [payload[index + 2], payload[index + 3]]
    ensures EncodeField(f) + payload[index + 4 + n..] == payload[index..]
  {
    assert [payload[index + 2], payload[index + 3]] == payload[index + 2..index + 4];
    assert payload[index..] == payload[index..index + 2] + payload[index + 2..index + 4]
      + payload[index + 4..index + 4 + n] + payload[index + 4 + n..];
  }

  /** Serialising undoes decoding, for a payload of complete data objects: fields the
      edits leave alone are written back exactly as they were read. */
  lemma SerializeDecode(payload: string)
    requires WholeFrom(payload, 0)
    ensures Serialize(Decode(payload)) == payload
  {
    SerializeDecodedFrom(payload, 0);
  }

  /** A value of 100 characters or more gets a length of more than two digits, since the
      serialiser does not check the two-digit limit; for 100 to 999 characters it is
      three digits. */
  lemma LongValueLength(value: string)
    requires 100 <= |value| < 1000
    ensures |LengthText(value)| == 3
  {
    assert Pow(10, 2) == 100 && Pow(10, 3) == 1000;
    ToRadixLength(|value|, 10, 2);
    ToRadixLength(|value|, 10, 3);
  }

  /** Fields framed as convertToDynamicQRIS frames them: serialised, then "6304", then the
      checksum of everything before it. */
  function Framed(fields: seq<Field>): string {
    var raw := Serialize(fields) + "6304";
    raw + CrcHex(raw)
  }

  /** The output of convertToDynamicQRIS. */
  function Converted(payload: string, amount: nat): string {
    Framed(Edited(Decode(payload), amount))
  }

  /** The output ends with "6304" and then the checksum of everything before the
      checksum, so dropping the last four characters and recomputing gives them back. */
  lemma FramedChecksum(fields: seq<Field>)
    ensures var out := Framed(fields);
      && |out| >= 8
      && out[|out| - 8..|out| - 4] == "6304"
      && out[|out| - 4..] == CrcHex(out[..|out| - 4])
      && forall k :: |out| - 4 <= k < |out| ==> IsUpperHexDigit(out[k])
  {
    var raw := Serialize(fields) + "6304";
    var out := raw + CrcHex(raw);
    CrcHexShape(raw);
    assert out[..|out| - 4] == raw;
    assert out[|out| - 4..] == CrcHex(raw);
    assert out[|out| - 8..|out| - 4] == raw[|raw| - 4..];
    forall k | |out| - 4 <= k < |out|
      ensures IsUpperHexDigit(out[k])
    {
      assert out[k] == CrcHex(raw)[k - |raw|];
    }
  }

  /** The checksum field a framed run of fields ends with, as the walk reads it back. */
  function ChecksumField(fields: seq<Field>): Field {
    Field("63", Int(4), CrcHex(Serialize(fields) + "6304"))
  }

  /** The checksum is written with the length "04". */
  lemma ChecksumLength(raw: string)
    ensures LengthText(CrcHex(raw)) == "04"
  {
    CrcHexShape(raw);
    assert Decimal(4) == "4";
  }

  lemma WellFormedSnoc(fields: seq<Field>, f: Field)
    requires WellFormed(fields) && |f.id| == 2 && |f.value| < 100
    ensures WellFormed(fields + [f])
  {
    var all := fields + [f];
    forall j | 0 <= j < |all| ensures |all[j].id| == 2 && |all[j].value| < 100 {
      if j < |fields| {
        assert all[j] == fields[j];
      }
    }
  }

  /** Framing is the serialisation of the fields followed by the checksum field. */
  lemma FramedSerialize(fields: seq<Field>)
    ensures Framed(fields) == Serialize(fields + [ChecksumField(fields)])
  {
    var c := ChecksumField(fields);
    ChecksumLength(Serialize(fields) + "6304");
    SerializeSnoc(fields, c);
  }

  /** The walk over framed well-formed fields reads back the fields, each length now
      matching its value, then the checksum field. */
  lemma FramedDecodes(fields: seq<Field>)
    requires WellFormed(fields)
    ensures Decode(Framed(fields)) == Refreshed(fields) + [ChecksumField(fields)]
  {
    var c := ChecksumField(fields);
    CrcHexShape(Serialize(fields) + "6304");
    FramedSerialize(fields);
    WellFormedSnoc(fields, c);
    DecodeSerialize(fields + [c]);
    RefreshedSnoc(fields, c);
  }

  lemma {:induction false} RefreshedSnoc(fields: seq<Field>, f: Field)
    ensures Refreshed(fields + [f]) == Refreshed(fields) + [Refresh(f)]
    decreases |fields|
  {
    if fields == [] {
      assert [] + [f] == [f];
    } else {
      assert (fields + [f])[1..] == fields[1..] + [f];
      RefreshedSnoc(fields[1..], f);
    }
  }

  lemma MarkDynamicWellFormed(fields: seq<Field>)
    requires WellFormed(fields)
    ensures WellFormed(MarkDynamic(fields))
  {
    MarkDynamicSpec(fields);
  }

  lemma StripStaleWellFormed(fields: seq<Field>)
    requires WellFormed(fields)
    ensures WellFormed(StripStale(fields))
  {
    var s := StripStale(fields);
    FilterKeptFrom(fields, Kept);
    forall j | 0 <= j < |s| ensures |s[j].id| == 2 && |s[j].value| < 100 {
      assert s[j] in fields;
    }
  }

  lemma InsertAmountWellFormed(fields: seq<Field>, amount: nat)
    requires WellFormed(fields) && |Decimal(amount)| < 100
    ensures WellFormed(InsertAmount(fields, amount))
  {
    var r, p := InsertAmount(fields, amount), AmountPosition(fields);
    InsertAmountSpec(fields, amount);
    forall j | 0 <= j < |r| ensures |r[j].id| == 2 && |r[j].value| < 100 {
      if j < p {
        assert r[j] == (r[..p] + r[p + 1..])[j];
      } else if j > p {
        assert r[j] == (r[..p] + r[p + 1..])[j - 1];
      }
    }
  }

  /** The edits keep fields well-formed when the amount has fewer than 100 digits. */
  lemma EditedWellFormed(fields: seq<Field>, amount: nat)
    requires WellFormed(fields) && |Decimal(amount)| < 100
    ensures WellFormed(Edited(fields, amount))
  {
    MarkDynamicWellFormed(fields);
    StripStaleWellFormed(MarkDynamic(fields));
    InsertAmountWellFormed(StripStale(MarkDynamic(fields)), amount);
  }

  /** For a payload whose fields read back well-formed, the output of the conversion
      reads back as the edited fields, each length re-derived, then the checksum field. */
  lemma ConvertedDecodes(payload: string, amount: nat)
    requires WellFormed(Decode(payload)) && |Decimal(amount)| < 100
    ensures var edited := Edited(Decode(payload), amount);
      Decode(Converted(payload, amount)) == Refreshed(edited) + [ChecksumField(edited)]
  {
    EditedWellFormed(Decode(payload), amount);
    FramedDecodes(Edited(Decode(payload), amount));
  }

  /** Step 1 of convertToDynamicQRIS: the cursor walk pushing each field it reads. */
  method DecodeParts(payload: string) returns (parts: seq<Field>)
    ensures parts == Decode(payload)
  {
    parts := [];
    var index: Num := Int(0);
    while index.Int? && index.value < |payload|
      invariant parts + Rest(payload, index) == Decode(payload)
      decreases if index.Int? && index.value <= |payload| then |payload| - index.value else 0
    {
      var i := index.value;
      var id, length, value := ReadAt(payload, i);
      DecodeStep(payload, i);
      ghost var before := parts;
      parts := parts + [Field(id, length, value)];
      index := Add(i + 4, length);
      assert before + ([Field(id, length, value)] + Rest(payload, index)) == parts + Rest(payload, index);
    }
  }

  /** Step 2 of convertToDynamicQRIS: mark the payload dynamic, drop the stale amount and
      checksum, and put the new amount in. */
  method EditParts(decoded: seq<Field>, amount: nat) returns (parts: seq<Field>)
    ensures parts == Edited(decoded, amount)
  {
    parts := MarkAndStrip(decoded);
    parts := PlaceAmount(parts, amount);
  }

  /** The find and in-place update of the "01" field, then the filter. */
  method MarkAndStrip(decoded: seq<Field>) returns (parts: seq<Field>)
    ensures parts == StripStale(MarkDynamic(decoded))
  {
    parts := decoded;
    var k := FindIndex(parts, IsPointOfInitiation);
    if k != -1 {
      parts := parts[k := parts[k].(value := "12")];
    }
    parts := Filter(parts, Kept);
  }

  /** The push of the amount field, then the pop and splice after the first "53" field. */
  method PlaceAmount(stripped: seq<Field>, amount: nat) returns (parts: seq<Field>)
    ensures parts == InsertAmount(stripped, amount)
  {
    var amountStr := Decimal(amount);
    parts := stripped + [Field("54", Int(|amountStr|), amountStr)];
    var currencyIndex := FindIndex(parts, IsCurrency);
    if currencyIndex != -1 {
      var amountPart := parts[|parts| - 1];
      parts := parts[..|parts| - 1];
      parts := parts[..currencyIndex + 1] + [amountPart] + parts[currencyIndex + 1..];
    }
  }

  /** Step 3 of convertToDynamicQRIS: the forEach appending each field to rawData. */
  method SerializeParts(parts: seq<Field>) returns (rawData: string)
    ensures rawData == Serialize(parts)
  {
    rawData := "";
    var j := 0;
    while j < |parts|
      invariant 0 <= j <= |parts|
      invariant rawData == Serialize(parts[..j])
    {
      SerializePrefix(parts, j);
      var lenStr := PadStart(Decimal(|parts[j].value|), 2, '0');
      rawData := rawData + (parts[j].id + lenStr + parts[j].value);
      j := j + 1;
    }
    assert parts[..j] == parts;
  }

  /** convertToDynamicQRIS. */
  method ConvertToDynamic(payload: string, amount: nat) returns (out: string)
    ensures out == Converted(payload, amount)
  {
    var parts := DecodeParts(payload);
    parts := EditParts(parts, amount);
    var rawData := SerializeParts(parts);
    rawData := rawData + "6304";
    var crcValue := Crc16Ccitt(rawData);
    out := rawData + crcValue;
  }
}
