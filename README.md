# QRIS static-to-dynamic converter: a verified model

This project models the core of a small web app that turns a static QRIS payment code
into a dynamic one that carries an amount. QRIS is the Indonesian profile of the EMVCo
Merchant-Presented Mode QR payload. The model has four modules:

- `JsBuiltins` (`js_builtins.dfy`) models the JavaScript built-ins the code leans on:
  - `substring`, which clamps both ends and swaps them;
  - `toString(radix)`, `padStart` and `toUpperCase`;
  - `parseInt`, which reads the leading decimal digits or gives NaN, and which without a
    radix reads a "0x" or "0X" prefix as the start of a hexadecimal number;
  - `filter` and `findIndex`.
- `Crc` (`crc.dfy`) models `crc16ccitt`.
  - The function is modelled as written: a 32-bit register, since JavaScript's bitwise
    operators work on int32 values, that is masked to 16 bits only at the end.
  - It is proved equal to a reference CRC-16/CCITT-FALSE. The reference has polynomial
    0x1021, initial value 0xFFFF, no reflection and no final XOR, and masks after every
    shift.
  - The output is proved to be four upper-case hexadecimal digits.
  - The check values are proved: "" gives "FFFF" and "123456789" gives "29B1".
- `Qris` (`qris.dfy`) models `getMerchantName` and `convertToDynamicQRIS`.
  - Both are cursor walks over id / 2-digit length / value data objects.
  - The conversion's edits are: the first "01" field becomes "12"; every "54" and "63"
    field is dropped; a new "54" amount field is placed after the first "53" field, or
    last.
  - The edited fields are serialised with the lengths re-derived, then "6304" and the
    checksum are appended.
  - Each loop is a method proved equal to a specification function. The properties are
    proved about those functions:
    - exactly one amount field, placed after the first currency field;
    - the relative order of the other fields kept;
    - decoding undoes serialising for well-formed fields;
    - the output ends with "6304" and the checksum of everything before the checksum;
    - the output reads back as the edited fields followed by the checksum field.
- `AppState` (`app.dfy`) models the state rules of `App.tsx`.
  - The updaters are functions, and the lemmas about them are the properties:
    - amount entry on the keypad, delete and clear;
    - the recent-history list, kept to ten entries with no payload twice.
  - The component is a class `App` whose fields are the component's state variables.
    Each handler is a method that keeps the class invariant and states the whole new
    state.

A strict codec would reject malformed input; the code does not, and the model follows
the code:

- A strict codec would reject a truncated header, a non-numeric length or a length that
  overruns the payload. The code raises nothing:
  - `substring` silently truncates a value that overruns the payload;
  - a non-numeric length ends the walk after pushing a field whose value is the text
    before the value's start (`Qris.ReadFieldSpec`, `Qris.HeaderOnlyPayload`).
- A strict codec would reject a value too long for a two-digit length. The code writes
  a value of 100 characters or more with a longer length: three digits for 100 to 999
  characters (`Qris.LongValueLength`), more beyond that.
- A strict codec would reject a non-positive amount inside the conversion. In the code
  the only guard is in `handleGenerate` (`AppState.App.Generate`);
  `convertToDynamicQRIS` accepts any amount.
- A length written "0x" or "0X" is NaN, because `parseInt` is called without a radix: the
  walk stops after that field (`Qris.HexPrefixedLength`).

## Model

| member | source | states |
|---|---|---|
| JsBuiltins.Add | utils/qris.ts:62 | `index += 4 + length` stays a number exactly when the length is one, and never moves the cursor back |
| JsBuiltins.LeadingDigitsSpec | utils/qris.ts:58 | the digits parseInt reads are the longest run of decimal digits at the start of the string |
| JsBuiltins.ParseIntNoRadixExamples | utils/qris.ts:58 | parseInt without a radix gives NaN for "0x" and "0X", reads "0x1A" in base 16 as 26, and reads "08" as decimal 8 |
| JsBuiltins.ParseTwo | utils/qris.ts:57-58 | a length parsed from two characters is NaN or below 100 |
| JsBuiltins.ParseTwoAgrees | utils/qris.ts:57-58 | on at most two characters, the case-by-case parse the walk uses is parseInt without a radix, "0x" and "0X" included |
| JsBuiltins.TwoDigitText | utils/qris.ts:108 | two decimal digits are exactly what toString and padStart(2, '0') write for their value |
| JsBuiltins.TwoDigitRoundTrip | utils/qris.ts:108 | a length below 100, written with toString and padStart(2, '0'), is two characters that parseInt reads back as the length |
| JsBuiltins.ToRadixValue | utils/qris.ts:21 | toString(radix) reads back, positionally, as the number |
| JsBuiltins.ToRadixLength | utils/qris.ts:21-22 | toString(radix) has at most k digits exactly when the number is below radix^k |
| JsBuiltins.FindIndex | utils/qris.ts:98 | findIndex gives the first index that satisfies the test, or -1 exactly when none does |
| JsBuiltins.FindIndexAppend | utils/qris.ts:98 | findIndex after a push finds the old index, or else the pushed element when it passes |
| JsBuiltins.FilterKept | utils/qris.ts:74 | every element filter keeps passes the test |
| JsBuiltins.FilterKeptFrom | App.tsx:48 | every element filter keeps comes from the input |
| JsBuiltins.FilterKeepsPassing | App.tsx:66 | every element that passes the test is kept |
| JsBuiltins.FilterConcat | App.tsx:66 | filter distributes over concatenation, so kept elements stay in order |
| Crc.ChecksumBound | utils/qris.ts:21 | the reference checksum is a 16-bit value |
| Crc.Hex4Length | utils/qris.ts:21-22 | a 16-bit value's hexadecimal digits, padded to 4, are exactly 4 characters |
| Crc.Hex4Digits | utils/qris.ts:21-22 | the four characters are upper-case hexadecimal digits |
| Crc.Hex4Value | utils/qris.ts:21-22 | the four characters read back, as hexadecimal, as the value |
| Crc.CrcHexShape | utils/qris.ts:21-22 | the checksum text is 4 upper-case hexadecimal digits whose value is the 16-bit CRC |
| Crc.StepLow | utils/qris.ts:12-16 | the low 16 bits after one unmasked shift-and-XOR equal one shift of the masked 16-bit register |
| Crc.StepNLow | utils/qris.ts:11-17 | the same holds for any number of shifts |
| Crc.MixLow | utils/qris.ts:10 | XOR-ing charCodeAt(i) << 8 into the 32-bit register changes its low 16 bits as XOR-ing the low byte into the high byte of the 16-bit register does |
| Crc.ByteLow | utils/qris.ts:10-17 | one outer pass on the unmasked register is one byte fed to the masked register |
| Crc.FeedLow | utils/qris.ts:9-18 | masking once after the loops equals masking after every shift |
| Crc.MaskedRegister | utils/qris.ts:6-21 | the register the loops leave, masked, is the CRC-16/CCITT-FALSE of the input |
| Crc.ShiftByte | utils/qris.ts:11-17 | the inner loop applies the shift-and-XOR step eight times |
| Crc.Crc16Ccitt | utils/qris.ts:5-23 | crc16ccitt returns the four-digit upper-case form of the CRC-16/CCITT-FALSE of its input |
| Crc.EmptyCheckValue | utils/qris.ts:6-9 | the empty string gives 0xFFFF, written "FFFF" |
| Crc.StandardCheckValue | utils/qris.ts:5-23 | "123456789" gives the standard check value 0x29B1, written "29B1" |
| Qris.ReadFieldSpec | utils/qris.ts:56-59 | a field's id is the two characters at the cursor; its length is NaN or below 100; its value is the run of `length` characters after the header, cut at the end of the payload, or the text before the value's start when the length is NaN |
| Qris.ReadAt | utils/qris.ts:56-59 | the three reads at the cursor give the field the walk reads there |
| Qris.DecodeAt | utils/qris.ts:55-63 | a field with a numeric length is pushed and the walk continues 4 + length characters further on |
| Qris.HeaderOnlyPayload | utils/qris.ts:31-38 | the payload "59" decodes to one field with a NaN length and the value "59", which getMerchantName returns |
| Qris.HexPrefixedLength | utils/qris.ts:31-38 | the payload "590x" decodes to one field with a NaN length and the value "590x", which getMerchantName returns |
| Qris.MerchantNameIsFirst | utils/qris.ts:31-44 | the merchant name is the value of the first "59" field the walk meets, or "Unknown Merchant" when there is none |
| Qris.GetMerchantName | utils/qris.ts:28-45 | getMerchantName returns the merchant name of the fields the cursor walk decodes |
| Qris.DecodeParts | utils/qris.ts:51-63 | the decoding loop pushes exactly the fields of the walk from cursor 0, in order |
| Qris.MarkDynamicSpec | utils/qris.ts:68-71 | only the first "01" field changes, only its value changes, and it becomes "12"; no field is added and ids and lengths are kept |
| Qris.StripStaleSpec | utils/qris.ts:74 | no "54" or "63" field survives the filter, and every other field does |
| Qris.InsertAmountShape | utils/qris.ts:78-103 | the push, pop and splice split the fields after the first "53" field, or at the end, and put the amount field there |
| Qris.InsertAmountSpec | utils/qris.ts:78-103 | the amount field is inserted at one position and the other fields keep their order around it |
| Qris.InsertAmountUnique | utils/qris.ts:74-103 | after the insertion the amount field is the only "54" field and there is no "63" field |
| Qris.AmountPlacement | utils/qris.ts:97-103 | the amount field follows the first "53" field, or comes last when there is no "53" field |
| Qris.EditedSpec | utils/qris.ts:65-103 | after all the edits there is exactly one "54" field, holding the decimal amount, no "63" field, and the filtered fields in order around it |
| Qris.EditParts | utils/qris.ts:65-103 | the find, in-place update, filter, push, pop and splice compute the edits |
| Qris.MarkAndStrip | utils/qris.ts:68-74 | the find, the in-place update of the "01" field and the filter compute the first two edits |
| Qris.PlaceAmount | utils/qris.ts:78-103 | the push, findIndex, pop and splice insert the amount field |
| Qris.SerializeParts | utils/qris.ts:105-110 | the forEach appends each field's id, padded value length and value, in order |
| Qris.ReadEncoded | utils/qris.ts:106-110 | reading at the start of a serialised field with a 2-character id and a value under 100 characters gives the field back, length re-derived |
| Qris.DecodeSerialized | utils/qris.ts:55-63 | the walk over serialised well-formed fields, wherever they start, reads all of them back |
| Qris.DecodeSerialize | utils/qris.ts:105-110 | decoding the serialised well-formed fields gives them back with their lengths re-derived |
| Qris.ReadWhole | utils/qris.ts:56-59 | at the start of a complete data object the walk reads its id, its two-digit length and exactly its value |
| Qris.SerializeDecodedFrom | utils/qris.ts:105-110 | serialising what the walk decodes from a run of complete data objects gives the run back, character for character |
| Qris.SerializeDecode | utils/qris.ts:51-110 | for a payload of complete data objects, serialising the decoded fields gives the payload back exactly |
| Qris.LongValueLength | utils/qris.ts:108 | a value of 100 to 999 characters gets a 3-digit length |
| Qris.EditedWellFormed | utils/qris.ts:65-103 | the edits keep fields well-formed when the amount has fewer than 100 digits |
| Qris.ChecksumLength | utils/qris.ts:114-117 | the checksum is four characters, which is what the length "04" of "6304" announces |
| Qris.FramedChecksum | utils/qris.ts:113-120 | the output ends with "6304" and four upper-case hex digits equal to the checksum of everything before them |
| Qris.FramedSerialize | utils/qris.ts:112-120 | the output is the serialisation of the edited fields followed by a "63" field of length 4 |
| Qris.FramedDecodes | utils/qris.ts:105-120 | the output reads back as the edited fields, then the "63" checksum field |
| Qris.ConvertedDecodes | utils/qris.ts:50-121 | for a payload whose fields are well-formed, the converted payload reads back as the edited fields followed by the checksum field |
| Qris.ConvertToDynamic | utils/qris.ts:50-121 | convertToDynamicQRIS returns the edited fields serialised, "6304", and the checksum |
| AppState.KeypadKeepsAmount | App.tsx:121-127 | a key press keeps the amount one to fifteen decimal digits |
| AppState.KeypadValue | App.tsx:123-125 | a press on "0" replaces it with the key; a press on any other amount of at most 12 characters appends the key to the amount's value; above 12 characters it is ignored |
| AppState.DeleteKeepsAmount | App.tsx:129-134 | delete keeps the amount one to fifteen decimal digits, so never empty |
| AppState.DeleteDropsLast | App.tsx:132 | delete on more than one character drops exactly the last one |
| AppState.DeleteUndoesKeypad | App.tsx:121-134 | delete undoes a one-digit key press that appended |
| AppState.PresetAmount | App.tsx:257-260 | a quick-amount button sets an amount string that reads back as its value |
| AppState.DecimalAmount | App.tsx:259 | toString of a number below 10^15 is an amount string that reads back as the number |
| AppState.AmountParses | App.tsx:141 | parseInt of an amount string is its value, below 10^15 and so exact in a JavaScript number |
| AppState.ZeroAmount | App.tsx:141-145 | the amount is below 1 exactly when every digit is '0' |
| AppState.SaveHistorySpec | App.tsx:45-61 | the saved entry comes first, followed by as many of the old entries with another payload as fit in ten, in their old order; no other entry has the saved payload |
| AppState.SaveHistoryKeeps | App.tsx:48-57 | every old entry with another payload survives when there is room |
| AppState.SaveHistoryDistinct | App.tsx:48-57 | saving keeps the payloads distinct |
| AppState.RemoveByIdSpec | App.tsx:63-70 | delete removes every entry with the id and keeps every other entry |
| AppState.RemoveByIdOrder | App.tsx:66 | deleting from two halves separately gives the deletion from the whole, so order is kept |
| AppState.RemoveByIdDistinct | App.tsx:66 | deleting keeps the payloads distinct |
| AppState.App.constructor | App.tsx:13-19 | the initial state: upload screen, empty payloads and name, amount "0", no error, empty history |
| AppState.App.PressKey | App.tsx:121-127 | handleKeypadPress changes only the amount, by the keypad rule, and keeps the invariant |
| AppState.App.Delete | App.tsx:129-134 | handleDelete changes only the amount, by the delete rule |
| AppState.App.Clear | App.tsx:136-138 | handleClear sets the amount to "0" and nothing else |
| AppState.App.ChoosePreset | App.tsx:257-260 | a preset button sets the amount to the preset's decimal form and nothing else |
| AppState.App.SaveToHistory | App.tsx:45-61 | saveToHistory changes only the history, by the save rule |
| AppState.App.DeleteFromHistory | App.tsx:63-70 | deleteFromHistory changes only the history, by the delete rule |
| AppState.App.SelectFromHistory | App.tsx:72-77 | selecting an entry loads its payload and name, clears the error and shows the amount screen |
| AppState.App.Scanned | App.tsx:86-112 | a decoded code is loaded with its merchant name, saved to the history, and the amount screen shown; no code sets the not-found error |
| AppState.App.Generate | App.tsx:140-154 | an amount below 1 only sets the error; otherwise the converted payload is stored and the result screen shown |
| AppState.App.Reset | App.tsx:156-163 | handleReset returns to the initial state except for the history |
| AppState.App.BackToAmount | App.tsx:165-167 | handleBackToAmount changes only the step, to the amount screen |

## Left out

- Reading the image, `FileReader`, `Image`, canvas and the `jsQR` decoder (App.tsx:81-119) are browser I/O and a foreign library. `AppState.App.Scanned` takes jsQR's result as a parameter.
- `Date.now()` for the history entry's id and timestamp (App.tsx:51, 54) is a clock. Both are parameters of `SaveToHistory` and `Scanned`.
- `localStorage` loading and storing, and JSON (App.tsx:24-33, 58, 67), are persistence I/O. The history list is modelled purely; a list loaded from storage could break the class invariant, and the model starts from the empty list.
- `formatRupiah` (App.tsx:36-43) is locale formatting. Rendering, `QRCodeSVG` and the display slice of the merchant id are presentation only (App.tsx:171-378).
- `console.log` and `console.error` are not modelled.
- The `try`/`catch` blocks are not modelled, in `getMerchantName` (utils/qris.ts:29-43) and in `handleGenerate` (App.tsx:147-153). String and array operations on string input do not throw, so the catch branches cannot run.
- parseInt: leading whitespace and a sign (" 4", "+4", "-4") are not modelled (the "0x" prefix is). A length segment starting with whitespace or a sign is read as NaN. With "-4", JavaScript moves the cursor by 0 and the walk never ends.
- Characters are Unicode scalar values rather than UTF-16 code units, so `charCodeAt` of a character above U+FFFF is not modelled. QRIS payloads are ASCII.
- `amount.toString()` of a number of 10^21 or more uses exponent notation, and the model uses plain decimal digits for any natural number. The app only passes amounts below 10^15 (`AppState.AmountParses`).
- Qris.EditParts: the object `find` returns is updated in place and shared with the array. The model replaces the element of a sequence, which has the same effect because nothing else holds the object.
- Crc.Crc16Ccitt: the inner loop's body is the `Step32` function, and the inner loop is the method `ShiftByte`, which the outer loop calls.
- Qris.ConvertToDynamic: the function's three steps are the methods `DecodeParts`, `EditParts` (itself `MarkAndStrip`, then `PlaceAmount`) and `SerializeParts`, called in the same order. The reads at the cursor shared by both walks are the method `ReadAt`.
- The history entries are `SavedQR` values in a sequence; whether React re-renders between two updates is not modelled.
