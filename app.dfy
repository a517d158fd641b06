/** The state rules of App.tsx: the amount typed on the keypad, the list of recently
    scanned payloads, and the moves between the three screens. */
module AppState {
  import opened JsBuiltins
  import opened Qris

  /** AppStep. */
  datatype Step = Upload | Amount | Result

  /** SavedQR: one entry of the recent-history list. */
  datatype SavedQR = SavedQR(id: string, payload: string, merchantName: string, createdAt: int)

  datatype Option<T> = None | Some(value: T)

  const AmountError := "Nominal harus lebih dari 0"
  const NoQrError := "QR Code tidak ditemukan atau tidak valid. Pastikan gambar jelas."
  const HistoryLimit := 10

  // ---------------------------------------------------------------------------
  // The amount string

  /** The values the keypad sends: one digit, "00" or "000". */
  predicate IsKey(val: string) {
    val in {"0", "1", "2", "3", "4", "5", "6", "7", "8", "9", "00", "000"}
  }

  /** The quick-amount buttons. */
  predicate IsPreset(val: nat) {
    val in {10000, 20000, 50000, 100000}
  }

  /** What the amount string can hold: one to fifteen decimal digits. */
  predicate AmountText(s: string) {
    1 <= |s| <= 15 && forall k :: 0 <= k < |s| ==> IsDecimalDigit(s[k])
  }

  /** The handleKeypadPress updater: a lone "0" is replaced, a string longer than twelve
      characters is kept as it is, and anything else gets the key appended. */
  function KeypadNext(prev: string, val: string): string {
    if prev == "0" then val
    else if |prev| > 12 then prev
    else prev + val
  }

  /** The handleDelete updater: one character or fewer becomes "0", otherwise the last
      character is dropped (slice(0, -1)). */
  function DeleteNext(prev: string): string {
    if |prev| <= 1 then "0" else prev[..|prev| - 1]
  }

  /** A key press keeps the amount one to fifteen digits: at most twelve characters get at
      most three more. */
  lemma KeypadKeepsAmount(prev: string, val: string)
    requires AmountText(prev) && IsKey(val)
    ensures AmountText(KeypadNext(prev, val))
  {
    var r := KeypadNext(prev, val);
    if prev != "0" && |prev| <= 12 {
      forall k | 0 <= k < |r| ensures IsDecimalDigit(r[k]) {
        if k >= |prev| {
          assert r[k] == val[k - |prev|];
        }
      }
    }
  }

  /** A key press on "0" replaces it with the key. On any other amount with at most
      twelve characters it appends the key, so its value is the old value shifted left by
      the key's digits plus the key's value; at more than twelve characters it is ignored. */
  lemma KeypadValue(prev: string, val: string)
    requires AmountText(prev) && IsKey(val)
    ensures prev == "0" ==> KeypadNext(prev, val) == val
    ensures prev != "0" && |prev| <= 12 ==>
      RadixValue(KeypadNext(prev, val), 10) == RadixValue(prev, 10) * Pow(10, |val|) + RadixValue(val, 10)
    ensures prev != "0" && |prev| > 12 ==> KeypadNext(prev, val) == prev
  {
    if prev != "0" && |prev| <= 12 {
      AppendValue(prev, val);
    }
  }

  /** The value of digits followed by more digits. */
  lemma {:induction false} AppendValue(a: string, b: string)
    ensures RadixValue(a + b, 10) == RadixValue(a, 10) * Pow(10, |b|) + RadixValue(b, 10)
    decreases |b|
  {
    if b == [] {
      assert a + b == a;
    } else {
      var c := b[..|b| - 1];
      var d := DigitValue(b[|b| - 1]);
      assert (a + b)[..|a + b| - 1] == a + c;
      assert (a + b)[|a + b| - 1] == b[|b| - 1];
      AppendValue(a, c);
      var x, y, p := RadixValue(a, 10), RadixValue(c, 10), Pow(10, |c|);
      assert RadixValue(a + b, 10) == RadixValue(a + c, 10) * 10 + d;
      assert RadixValue(b, 10) == y * 10 + d;
      assert Pow(10, |b|) == 10 * p;
      AppendStep(x, y, p, d);
    }
  }

  /** Appending one digit to digits that follow x: the arithmetic of AppendValue's step. */
  lemma AppendStep(x: nat, y: nat, p: nat, d: nat)
    ensures (x * p + y) * 10 + d == x * (10 * p) + (y * 10 + d)
  {
  }

  /** Delete never leaves the amount empty and keeps it one to fifteen digits. */
  lemma DeleteKeepsAmount(prev: string)
    requires AmountText(prev)
    ensures AmountText(DeleteNext(prev))
  {
  }

  /** Delete undoes pressing a one-digit key whenever that press appended it. */
  lemma DeleteUndoesKeypad(prev: string, val: string)
    requires AmountText(prev) && IsKey(val) && |val| == 1 && prev != "0" && |prev| <= 12
    ensures DeleteNext(KeypadNext(prev, val)) == prev
  {
    assert (prev + val)[..|prev|] == prev;
  }

  /** Delete on more than one character drops exactly the last one. */
  lemma DeleteDropsLast(prev: string)
    requires |prev| > 1
    ensures DeleteNext(prev) + [prev[|prev| - 1]] == prev
  {
  }

  /** A preset amount as toString gives it: an amount string that reads back as the preset. */
  lemma PresetAmount(val: nat)
    requires IsPreset(val)
    ensures AmountText(Decimal(val)) && RadixValue(Decimal(val), 10) == val
  {
    TenToFifteen();
    DecimalAmount(val);
  }

  lemma TenToFifteen()
    ensures Pow(10, 15) == 1_000_000_000_000_000
  {
    assert Pow(10, 1) == 10;
    assert Pow(10, 2) == 100;
    assert Pow(10, 3) == 1000;
    assert Pow(10, 4) == 10000;
    assert Pow(10, 5) == 100000;
    assert Pow(10, 6) == 1000000;
    assert Pow(10, 7) == 10000000;
    assert Pow(10, 8) == 100000000;
    assert Pow(10, 9) == 1000000000;
    assert Pow(10, 10) == 10000000000;
    assert Pow(10, 11) == 100000000000;
    assert Pow(10, 12) == 1000000000000;
    assert Pow(10, 13) == 10000000000000;
    assert Pow(10, 14) == 100000000000000;
  }

  /** toString of a number below 10^15 is an amount string, and reads back as the number. */
  lemma DecimalAmount(n: nat)
    requires n < Pow(10, 15)
    ensures AmountText(Decimal(n)) && RadixValue(Decimal(n), 10) == n
  {
    ToRadixLength(n, 10, 15);
    ToRadixLeading(n, 10);
    ToRadixDigits(n, 10);
    ToRadixValue(n, 10);
    DecimalDigits(Decimal(n));
  }

  lemma DecimalDigits(s: string)
    requires AreDigits(s, 10)
    ensures forall k :: 0 <= k < |s| ==> IsDecimalDigit(s[k])
  {
    assert LowerDigits[..10] == "0123456789";
    forall k | 0 <= k < |s| ensures IsDecimalDigit(s[k]) {
      assert s[k] in "0123456789";
    }
  }

  /** An amount string parses to a number below 10^15, inside the range where JavaScript
      numbers are exact integers, so the amount handed to the conversion is its value. */
  lemma AmountParses(s: string)
    requires AmountText(s)
    ensures ParseInt(s) == Int(RadixValue(s, 10))
    ensures RadixValue(s, 10) < Pow(10, 15) <= 0x20_0000_0000_0000
  {
    ParseDigits(s);
    DigitsBelow(s);
    PowMono(|s|, 15);
    TenToFifteen();
  }

  /** The amount guard of handleGenerate: an amount string is below 1 exactly when every
      character is '0'. */
  lemma {:induction false} ZeroAmount(s: string)
    requires forall k :: 0 <= k < |s| ==> IsDecimalDigit(s[k])
    ensures RadixValue(s, 10) == 0 <==> forall k :: 0 <= k < |s| ==> s[k] == '0'
    decreases |s|
  {
    if s != [] {
      var t := s[..|s| - 1];
      ZeroAmount(t);
      if RadixValue(s, 10) == 0 {
        forall k | 0 <= k < |s| ensures s[k] == '0' {
          if k < |t| {
            assert s[k] == t[k];
          }
        }
      }
    }
  }

  // ---------------------------------------------------------------------------
  // The recent-history list

  /** The history holds at most ten entries and no payload twice. */
  predicate HistoryOk(h: seq<SavedQR>) {
    |h| <= HistoryLimit && DistinctPayloads(h)
  }

  /** No two entries share a payload. */
  predicate DistinctPayloads(h: seq<SavedQR>) {
    forall i, j :: 0 <= i < j < |h| ==> h[i].payload != h[j].payload
  }

  /** slice(0, n). */
  function Take<T>(s: seq<T>, n: nat): (r: seq<T>)
    ensures |r| <= n && |r| <= |s| && r == s[..|r|]
    ensures |s| <= n ==> r == s
  {
    if |s| <= n then s else s[..n]
  }

  /** The saveToHistory updater: the new entry first, then the old entries with another
      payload, cut to ten. */
  function SaveHistory(prev: seq<SavedQR>, item: SavedQR): seq<SavedQR> {
    Take([item] + Filter(prev, (q: SavedQR) => q.payload != item.payload), HistoryLimit)
  }

  /** The deleteFromHistory updater: every entry whose id is not the given one. */
  function RemoveById(prev: seq<SavedQR>, id: string): seq<SavedQR> {
    Filter(prev, (q: SavedQR) => q.id != id)
  }

  /** Filtering keeps payloads distinct. */
  lemma {:induction false} FilterDistinct(h: seq<SavedQR>, keep: SavedQR -> bool)
    requires DistinctPayloads(h)
    ensures DistinctPayloads(Filter(h, keep))
    decreases |h|
  {
    if h != [] {
      var t := h[1..];
      assert DistinctPayloads(t) by {
        forall i, j | 0 <= i < j < |t| ensures t[i].payload != t[j].payload {
          assert t[i] == h[i + 1] && t[j] == h[j + 1];
        }
      }
      FilterDistinct(t, keep);
      FilterKeptFrom(t, keep);
      var ft := Filter(t, keep);
      forall j | 0 <= j < |ft| ensures ft[j].payload != h[0].payload {
        var i :| 0 <= i < |t| && t[i] == ft[j];
        assert t[i] == h[i + 1];
      }
    }
  }

  /** The saved entry comes first, the list holds at most ten entries, no other entry has
      the saved payload, and the rest are the surviving old entries in their old order. */
  lemma SaveHistorySpec(prev: seq<SavedQR>, item: SavedQR)
    ensures var r := SaveHistory(prev, item);
      var kept := Filter(prev, (q: SavedQR) => q.payload != item.payload);
      && |r| == (if |kept| < HistoryLimit then |kept| + 1 else HistoryLimit)
      && r[0] == item
      && (forall j :: 1 <= j < |r| ==> r[j].payload != item.payload && r[j] in prev)
      && r[1..] == kept[..|r| - 1]
  {
    var keep := (q: SavedQR) => q.payload != item.payload;
    var kept := Filter(prev, keep);
    var r := SaveHistory(prev, item);
    FilterKept(prev, keep);
    FilterKeptFrom(prev, keep);
    assert r == ([item] + kept)[..|r|];
    forall j | 1 <= j < |r| ensures r[j] == kept[j - 1] {
      assert r[j] == ([item] + kept)[j];
    }
  }

  /** Every old entry with another payload survives when the list has room for it. */
  lemma SaveHistoryKeeps(prev: seq<SavedQR>, item: SavedQR)
    requires |Filter(prev, (q: SavedQR) => q.payload != item.payload)| < HistoryLimit
    ensures forall j :: 0 <= j < |prev| && prev[j].payload != item.payload ==>
      prev[j] in SaveHistory(prev, item)
  {
    var keep := (q: SavedQR) => q.payload != item.payload;
    var kept := Filter(prev, keep);
    FilterKeepsPassing(prev, keep);
    forall j | 0 <= j < |prev| && prev[j].payload != item.payload
      ensures prev[j] in SaveHistory(prev, item)
    {
      assert keep(prev[j]);
      var i :| 0 <= i < |kept| && kept[i] == prev[j];
      assert SaveHistory(prev, item)[i + 1] == prev[j];
    }
  }

  /** Saving keeps the payloads distinct. */
  lemma SaveHistoryDistinct(prev: seq<SavedQR>, item: SavedQR)
    requires DistinctPayloads(prev)
    ensures DistinctPayloads(SaveHistory(prev, item))
  {
    var keep := (q: SavedQR) => q.payload != item.payload;
    var kept := Filter(prev, keep);
    FilterDistinct(prev, keep);
    FilterKept(prev, keep);
    var all := [item] + kept;
    assert DistinctPayloads(all) by {
      forall i, j | 0 <= i < j < |all| ensures all[i].payload != all[j].payload {
        assert all[j] == kept[j - 1];
        if i > 0 {
          assert all[i] == kept[i - 1];
        } else {
          assert keep(kept[j - 1]);
        }
      }
    }
    var r := SaveHistory(prev, item);
    assert r == all[..|r|];
  }

  /** Deleting removes every entry with the id and keeps every other entry. */
  lemma RemoveByIdSpec(prev: seq<SavedQR>, id: string)
    ensures var r := RemoveById(prev, id);
      && (forall j :: 0 <= j < |r| ==> r[j].id != id && r[j] in prev)
      && (forall j :: 0 <= j < |prev| && prev[j].id != id ==> prev[j] in r)
  {
    var keep := (q: SavedQR) => q.id != id;
    FilterKept(prev, keep);
    FilterKeptFrom(prev, keep);
    FilterKeepsPassing(prev, keep);
  }

  /** Deleting keeps the order of the rest: the entries before and after any split point
      are deleted from separately and stay in place. */
  lemma RemoveByIdOrder(a: seq<SavedQR>, b: seq<SavedQR>, id: string)
    ensures RemoveById(a + b, id) == RemoveById(a, id) + RemoveById(b, id)
  {
    FilterConcat(a, b, (q: SavedQR) => q.id != id);
  }

  /** Deleting keeps the payloads distinct. */
  lemma RemoveByIdDistinct(prev: seq<SavedQR>, id: string)
    requires DistinctPayloads(prev)
    ensures DistinctPayloads(RemoveById(prev, id))
  {
    FilterDistinct(prev, (q: SavedQR) => q.id != id);
  }

  // ---------------------------------------------------------------------------
  // The component state

  /** All the state fields at one moment. */
  datatype View = View(
    step: Step,
    originalPayload: string,
    merchantName: string,
    amountStr: string,
    dynamicPayload: string,
    error: Option<string>,
    history: seq<SavedQR>)

  /** The state of the App component and its handlers. */
  class App {
    var step: Step
    var originalPayload: string
    var merchantName: string
    var amountStr: string
    var dynamicPayload: string
    var error: Option<string>
    var history: seq<SavedQR>

    /** The amount is one to fifteen digits; the history has at most ten entries and no
        payload twice. */
    predicate Valid()
      reads this
    {
      AmountText(amountStr) && HistoryOk(history)
    }

    function State(): View
      reads this
    {
      View(step, originalPayload, merchantName, amountStr, dynamicPayload, error, history)
    }

    /** The initial state: the upload screen, nothing loaded, amount "0". */
    constructor()
      ensures Valid()
      ensures State() == View(Upload, "", "", "0", "", None, [])
    {
      step := Upload;
      originalPayload := "";
      merchantName := "";
      amountStr := "0";
      dynamicPayload := "";
      error := None;
      history := [];
    }

    /** handleKeypadPress. */
    method PressKey(val: string)
      requires Valid() && IsKey(val)
      modifies this
      ensures Valid()
      ensures State() == old(State()).(amountStr := KeypadNext(old(amountStr), val))
    {
      KeypadKeepsAmount(amountStr, val);
      amountStr := KeypadNext(amountStr, val);
    }

    /** handleDelete. */
    method Delete()
      requires Valid()
      modifies this
      ensures Valid()
      ensures State() == old(State()).(amountStr := DeleteNext(old(amountStr)))
    {
      DeleteKeepsAmount(amountStr);
      amountStr := DeleteNext(amountStr);
    }

    /** handleClear. */
    method Clear()
      requires Valid()
      modifies this
      ensures Valid()
      ensures State() == old(State()).(amountStr := "0")
    {
      amountStr := "0";
    }

    /** A quick-amount button: setAmountStr(val.toString()). */
    method ChoosePreset(val: nat)
      requires Valid() && IsPreset(val)
      modifies this
      ensures Valid()
      ensures State() == old(State()).(amountStr := Decimal(val))
    {
      PresetAmount(val);
      amountStr := Decimal(val);
    }

    /** saveToHistory, with the id and the time Date.now() would give passed in. */
    method SaveToHistory(payload: string, name: string, id: string, now: int)
      requires Valid()
      modifies this
      ensures Valid()
      ensures State() == old(State()).(history := SaveHistory(old(history), SavedQR(id, payload, name, now)))
    {
      var item := SavedQR(id, payload, name, now);
      SaveHistorySpec(history, item);
      SaveHistoryDistinct(history, item);
      history := SaveHistory(history, item);
    }

    /** deleteFromHistory. */
    method DeleteFromHistory(id: string)
      requires Valid()
      modifies this
      ensures Valid()
      ensures State() == old(State()).(history := RemoveById(old(history), id))
    {
      RemoveByIdDistinct(history, id);
      history := RemoveById(history, id);
    }

    /** selectFromHistory: load the entry and go to the amount screen. */
    method SelectFromHistory(item: SavedQR)
      requires Valid()
      modifies this
      ensures Valid()
      ensures State() == old(State()).(originalPayload := item.payload,
        merchantName := item.merchantName, error := None, step := Amount)
    {
      originalPayload := item.payload;
      merchantName := item.merchantName;
      error := None;
      step := Amount;
    }

    /** What handleFileUpload does with the text jsQR decoded from the image, or with
        jsQR finding no code: load and remember the payload, or report the failure. */
    method Scanned(code: Option<string>, id: string, now: int)
      requires Valid()
      modifies this
      ensures Valid()
      ensures code.None? ==> State() == old(State()).(error := Some(NoQrError))
      ensures code.Some? ==> State() == old(State()).(error := None,
        originalPayload := code.value, merchantName := MerchantNameIn(Decode(code.value)),
        history := SaveHistory(old(history), SavedQR(id, code.value, MerchantNameIn(Decode(code.value)), now)),
        step := Amount)
    {
      error := None;
      if code.Some? {
        var name := GetMerchantName(code.value);
        originalPayload := code.value;
        merchantName := name;
        SaveToHistory(code.value, name, id, now);
        step := Amount;
      } else {
        error := Some(NoQrError);
      }
    }

    /** handleGenerate: an amount below 1 only sets the error; otherwise the converted
        payload is shown on the result screen. */
    method Generate()
      requires Valid()
      modifies this
      ensures Valid()
      ensures var amount := RadixValue(old(amountStr), 10);
        if amount < 1 then State() == old(State()).(error := Some(AmountError))
        else State() == old(State()).(dynamicPayload := Converted(old(originalPayload), amount), step := Result)
    {
      ParseDigits(amountStr);
      var parsed := ParseInt(amountStr);
      var amount := parsed.value;
      if amount < 1 {
        error := Some(AmountError);
        return;
      }
      var newPayload := ConvertToDynamic(originalPayload, amount);
      dynamicPayload := newPayload;
      step := Result;
    }

    /** handleReset: back to the upload screen with everything but the history cleared. */
    method Reset()
      requires Valid()
      modifies this
      ensures Valid()
      ensures State() == View(Upload, "", "", "0", "", None, old(history))
    {
      step := Upload;
      originalPayload := "";
      merchantName := "";
      amountStr := "0";
      dynamicPayload := "";
      error := None;
    }

    /** handleBackToAmount. */
    method BackToAmount()
      requires Valid()
      modifies this
      ensures Valid()
      ensures State() == old(State()).(step := Amount)
    {
      step := Amount;
    }
  }
}
