# Lamp simulator: sentence codec and protect mask

A model of the serial side of the lamp-positioning simulator. The control
unit and the lamp exchange short ASCII sentences `$<fields>*hh<CR><LF>`,
where `hh` is the 8-bit XOR checksum of the bytes from index 1 up to the
`*`, written as two upper-case hex digits. The model covers:

- the checksum `calcCrc`;
- the hex digit decoder `htodec` and the `%02X` digits it reads back;
- `finalizeSendSentence`, which appends the checksum digits, CR and LF to
  an outgoing sentence;
- `splitFields`, which checks an incoming sentence, splits it on `,` and
  `*` and overwrites each checked `*` with NUL in place;
- `parseCtlUnitData`, which applies a control-unit command (bearing,
  elevation, focus) to the shared context;
- the shared context `Ctx` of `defs.h`: its constructor, the protect mask
  with `protect` and `unprotect`, and the `CtlProtectFlags`, `LampStatus`
  and `OutputFlags` enumerations.

Files:

- `ascii.dfy` (module `Ascii`) holds bytes, C strings and `atoi`.
- `serial.dfy` (module `Serial`) holds the codec operations. Sentence
  buffers are `array<byte>`. `splitFields` and `parseCtlUnitData` are
  methods proved against the function `Serial.Scan`, which follows the C
  loop step by step.
- `sentence_props.dfy` (module `SentenceProps`) proves what the loop
  computes, against definitions that do not mention the loop:
  - where the separators are;
  - where each field starts;
  - which stars are cleared;
  - when the checksum matches.
- `defs.dfy` (module `Defs`) holds the enumerations and `Ctx`, a class
  whose methods update its fields.
- `findings.dfy` (module `Findings`) holds the defect described under
  "Findings": what the field split does as written, and a corrected split
  with its round trip.

Undefined behaviour of the C code becomes a precondition, or the result
`Serial.SplitResult.Undefined`. Examples are reading past the buffer and
building a `std::string` of negative length.

The code does the following, which a reader may not expect:

- Fields are built from the start of the buffer, not from the start of the
  field. See "Findings".
- The field start moves only at `,`. A `*` ends a field without moving it,
  and scanning continues after the cleared `*` up to the terminating NUL.
- The checksum runs from index 1 to the first `*` at index 2 or later, and
  calcCrc does not stop at NUL. If there is no `*` anywhere at index 2 or
  later, calcCrc reads past the buffer; the model makes such a `*` a
  precondition. If the C string holds no `*` but a stale `*` lies after
  its NUL (as it can in the 5000-byte receive buffer of
  `readAvailableData`), splitFields accepts the sentence with no checksum
  test at all (`SentenceProps.UncheckedWithoutStar`).
- Two adjacent separators after index 1 (`,,` or `,*`) make splitFields
  build a `std::string` of length -1, which is undefined behaviour; the
  model gives `Serial.SplitResult.Undefined` there.
- The device's own outgoing sentence `$,01,...` (serial.cpp:46) has an
  empty field 0. parseCtlUnitData, on more than 4 fields, reads
  `fields[0].c_str() + 1`, one past the end of that empty string; the model
  makes a non-empty field 0 a precondition there (`Serial.ParseDefined`).
- A field that is not a number is not rejected. `atoi` reads it as 0.

## Model

| member | source | states |
|---|---|---|
| Serial.HexValue | serial.cpp:50-55 | htodec gives a value below 16: below 10 for a decimal digit, at least 10 for a letter digit of either case, and 0 for anything that is not a hex digit |
| Serial.HexDigit | serial.cpp:29 | a `%X` digit is upper-case, and htodec reads it back as the value it was printed from |
| Serial.HexDigitsAgree | serial.cpp:50-55 | a lower-case hex digit reads as its upper-case form, and every upper-case digit is the one `%X` prints for its value |
| Serial.CrcTail | serial.cpp:29 | `%02X\r\n` is four bytes: two upper-case hex digits that htodec reads back as the checksum (`hi * 16 + lo`), then CR and LF |
| Serial.CalcCrc | serial.cpp:16-22 | returns the XOR of the bytes from index 1 up to the first `*` at index 2 or later; such a `*` is required |
| Serial.AppendToCStr | serial.cpp:30 | writing a NUL-free tail and a NUL over a C string's terminator extends that C string by exactly the tail |
| Serial.FinalizeSendSentence | serial.cpp:24-30 | every byte before the terminator is kept; the checksum's two hex digits, CR, LF and a new NUL are written from the old terminator on; the bytes after them are untouched; the C string grows by exactly those four bytes |
| Serial.SplitFields | serial.cpp:57-78 | on a buffer without undefined behaviour, returns the count, the fields and the new buffer that the reference scan gives, starting from no fields |
| Serial.ParseCtlUnitData | serial.cpp:80-94 | the buffer is left as splitFields leaves it; if more than 4 fields come back and the lamp id read from field 0 after its first byte is 1, then elevation, bearing and focus are set from fields 2, 1 and 3 (focus as `atoi` truncated to 8 bits); otherwise all three are unchanged |
| SentenceProps.ScanCount | serial.cpp:63-77 | from any loop state, the count returned is 0 (rejected) or the number of fields pushed, and the fields already pushed stay, in order, at the front of the result |
| SentenceProps.SplitCount | serial.cpp:57-77 | a non-zero count returned by splitFields is the size of the field vector |
| SentenceProps.SplitAccepts | serial.cpp:57-77 | when every `*` before the terminator carries the right checksum, splitFields returns one field per `,` or `*` from index 1 up to the terminator, and the buffer changes only in those `*`, which become NUL |
| SentenceProps.SplitFieldsArePrefixes | serial.cpp:63-68 | on an accepted buffer, field k is the prefix of the buffer whose length is the k-th separator's index minus that field's start minus 1; the start is 0 at first and one past the last `,` after that |
| SentenceProps.SplitRejects | serial.cpp:59-71 | when the digits after a `*` disagree with the checksum of the unmodified buffer, splitFields returns 0 having cleared only the earlier stars; if that `*` is the first, the buffer is left exactly as received |
| SentenceProps.CrcOfPayload | serial.cpp:16-22 | the checksum of a buffer holding a star-free text and then a `*` is the XOR of the text from index 1, whatever follows the `*` |
| SentenceProps.FramedSentenceAccepted | serial.cpp:24-77 | a sentence framed by finalizeSendSentence passes splitFields' check with one field per `,` of the text plus one for the `*`, and only that `*` is overwritten |
| SentenceProps.FinalizeIsFramed | serial.cpp:24-30 | the buffer `Serial.FinalizeSendSentence` leaves for a C string `q` + `*` is `q`, the `*`, the checksum digits of `q`, CR, LF, a NUL and the untouched rest of the buffer |
| SentenceProps.FinalizedSentenceAccepted | serial.cpp:24-77 | encode then decode: for a well formed text, whatever finalizeSendSentence writes passes splitFields' check, with one field per `,` of the text plus one for the `*`, and only the `*` is overwritten |
| SentenceProps.UncheckedWithoutStar | serial.cpp:57-77 | a buffer whose C string holds no `*` but which has a `*` later on is accepted whatever its digits say: one field per `,`, the count equal to their number, the buffer unchanged |
| SentenceProps.CorruptedSentenceRejected | serial.cpp:67-71 | changing any one byte of a framed sentence's text after index 0 (keeping the text well formed) makes splitFields return 0 and leave the buffer exactly as received |
| SentenceProps.MismatchIsInert | serial.cpp:80-94 | a sentence whose first `*` carries a wrong checksum can be parsed and never applies, so the requested bearing, elevation and focus stay as they were |
| SentenceProps.ParseDefinedIffFirstFieldNonEmpty | serial.cpp:84-85 | when more than 4 fields come back, fields 0 to 3 exist; the only undefined read is of an empty field 0 |
| Ascii.AtoiOfDecimal | serial.cpp:85 | `atoi` reads back any natural number written with `%d`, whatever non-digit follows |
| Ascii.AtoiOfNonNumeric | serial.cpp:92 | `atoi` of a string that starts with neither white space, a sign nor a digit is 0 |
| Defs.ProtectValue | defs.h:14-21 | every `CtlProtectFlags` enumerator is a single bit below 64 |
| Defs.ProtectValuesDisjoint | defs.h:14-21 | distinct protect flags share no bit, and any two combined still fit below 64 |
| Defs.StatusValue | defs.h:23-33 | `LampOK` is the only status with value 0, and every other status is a single bit |
| Defs.StatusValuesDisjoint | defs.h:23-33 | distinct statuses share no bit |
| Defs.SetBits | defs.h:118 | `mask \| flags` has exactly the bits set in either |
| Defs.ClearBits | defs.h:121 | `mask & ~flags` has exactly the bits of the mask that are not in the flags |
| Defs.ProtectLaws | defs.h:117-122 | protecting twice equals protecting once; unprotecting twice equals unprotecting once; unprotecting undoes protecting when the mask had none of the flag's bits |
| Defs.UnprotectUndoesProtect | defs.h:117-122 | if the mask shares no bit with the flags, clearing the flags after setting them gives back the mask |
| Defs.Ctx.constructor | defs.h:64-94 | copies the mask, mast height, actual and requested bearing, elevation and focus; starts with lastCorrection 0, not running, not instant, output flags COPY_TO_CONCOLE (fake mode off) |
| Defs.Ctx.Protect | defs.h:117-119 | sets every bit of the flag in the mask and leaves every other bit as it was |
| Defs.Ctx.Unprotect | defs.h:120-122 | clears every bit of the flag in the mask and leaves every other bit as it was |
| Findings.ScanFieldsLead | serial.cpp:63-75 | as written, the loop never changes byte 0 and every field it pushes that is non-empty starts with byte 0 of the buffer |
| Findings.SplitFieldsLead | serial.cpp:65-68 | as written, every non-empty field splitFields returns starts with the buffer's first byte |
| Findings.AppliedFocusIsZero | serial.cpp:92 | as written, a `$`-led command that is applied always sets the requested focus to 0 |
| Findings.AsWrittenRoundTripFails | serial.cpp:65-68 | as written, a framed sentence of non-empty fields passes the check, but the fields come back different whenever field 1 starts with a byte other than field 0's first byte |
| Findings.IntendedRoundTrip | serial.cpp:57-77 | with each field taken from its start to its separator, the sentence the fields are joined into and framed as finalizeSendSentence frames it splits back into exactly those fields, empty ones included; only the `*` is overwritten |
| Findings.IntendedFieldsFrom | serial.cpp:63-75 | the corrected loop, started inside the first of a run of plain fields that ends at a `*` with the right checksum, pushes exactly those fields |

## Left out

- Floating point is not modelled. `atof` (serial.cpp:90-91) is a function parameter of `Serial.ParseCtlUnitData`. The `%.2f` payload of `sendLampSentence` (serial.cpp:44-48) is not built; only its framing by finalizeSendSentence is modelled.
- The port write of `finalizeSendSentence` (serial.cpp:32-41) is I/O and is not modelled. So are its reads of `outputFlags` and its locking.
- The serial port and threads are I/O and concurrency and are not modelled: `readAvailableData`, `readerProc`, `startReader`, `getSerialPortsList` and `openPort`.
- `Ctx` locking is concurrency and is not modelled: `lock`, `unlock`, the mutex and thread handles, and the destructor.
- The window, pen and brush handles and `incomingStrings` are not part of the model.
- lampsim.cpp is the GUI and is not part of this model, and neither is resource.h, which holds resource identifiers only.
- Ascii.Atoi: the result is an unbounded integer. An out-of-range result, which is undefined behaviour in C, is not modelled.
- Serial.ParseCtlUnitData: the `printf` of an invalid lamp id is output only and is not modelled.
- Serial.SplitFields: `fields.size()` is returned as an unbounded count, so its conversion to `int` is not modelled. The unused local `count` is not modelled either.
- defs.h:131 declares `sendLampSentence` with a status argument that serial.cpp:44 does not take. The model has no `sendLampSentence` at all.
- Defs.Ctx.Protect and Defs.Ctx.Unprotect accept any value below 64, not only single enumerators. A `CtlProtectFlags` variable can hold such combinations.

## Findings

| source | as written | input that shows it | evidently intended | confidence | as-written member | corrected member |
|---|---|---|---|---|---|---|
| serial.cpp:65, 68 | each field is `std::string(source, chr - begin - 1)`: a prefix of the whole buffer, one byte shorter than the field | `$1,10,20,30,0*hh` with `hh` its checksum gives fields `$`, `$`, `$`, `$` and an empty one; the lamp id reads as 0 and the command is ignored | the text between separators, `std::string(begin, chr - begin)`, giving `$1`, `10`, `20`, `30`, `0` and lamp 1 | medium, not executed | Findings.AsWrittenRoundTripFails | Findings.IntendedRoundTrip |
