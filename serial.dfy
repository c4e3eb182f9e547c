/** The ASCII sentence codec of serial.cpp: the XOR checksum, hex digits,
    framing an outgoing sentence, splitting and checking an incoming one,
    and applying a control-unit command to the shared context.

    A sentence lives in a fixed-size `char` buffer, modelled as an
    `array<byte>`; C strings end at their first NUL. Where the C code has
    undefined behaviour (reading past the buffer, building a string of
    negative length) the model makes the absence of it a precondition. */
module Serial {
  import opened Ascii
  import Defs

  // ---------------------------------------------------------------------
  // htodec and its inverse, the digits printed by %02X
  // ---------------------------------------------------------------------

  predicate IsUpperHexDigit(c: byte) {
    IsDigit(c) || UPPER_A <= c <= UPPER_F
  }

  predicate IsHexDigit(c: byte) {
    IsUpperHexDigit(c) || LOWER_A <= c <= LOWER_F
  }

  /** `htodec`: the value of one hex digit of either case; anything that
      is not a hex digit reads as 0. */
  function HexValue(c: byte): (v: byte)
    ensures v < 16
    ensures !IsHexDigit(c) ==> v == 0
    ensures IsDigit(c) ==> v < 10
    ensures IsHexDigit(c) && !IsDigit(c) ==> 10 <= v
  {
    if DIGIT_0 <= c <= DIGIT_9 then c - DIGIT_0
    else if UPPER_A <= c <= UPPER_F then c - UPPER_A + 10
    else if LOWER_A <= c <= LOWER_F then c - LOWER_A + 10
    else 0
  }

  /** One digit of `%X`: the upper-case hex digit of a value below 16. */
  function HexDigit(n: byte): (c: byte)
    requires n < 16
    ensures IsUpperHexDigit(c)
    ensures HexValue(c) == n
  {
    if n < 10 then DIGIT_0 + n else UPPER_A + (n - 10)
  }

  /** Upper and lower case name the same digit, and every upper-case digit
      is the one `%X` prints for its value. */
  lemma HexDigitsAgree(c: byte)
    ensures LOWER_A <= c <= LOWER_F ==> HexValue(c) == HexValue(c - 0x20)
    ensures IsUpperHexDigit(c) ==> HexDigit(HexValue(c)) == c
  {
  }

  /** `htodec(hi) * 16 + htodec(lo)`, evaluated in `uint8_t`. */
  function HexPair(hi: byte, lo: byte): byte {
    HexValue(hi) * 16 + HexValue(lo)
  }

  /** `sprintf(tail, "%02X\r\n", crc)`: two upper-case digits, CR, LF. */
  function CrcTail(crc: byte): (t: Bytes)
    ensures |t| == 4 && t[2] == CR && t[3] == LF
    ensures IsUpperHexDigit(t[0]) && IsUpperHexDigit(t[1])
    ensures HexPair(t[0], t[1]) == crc
  {
    [HexDigit(crc >> 4), HexDigit(crc & 0xF), CR, LF]
  }

  // ---------------------------------------------------------------------
  // calcCrc
  // ---------------------------------------------------------------------

  /** XOR of `s[lo..hi]`. */
  function XorRange(s: Bytes, lo: nat, hi: nat): byte
    requires lo <= hi <= |s|
    decreases hi - lo
  {
    if lo == hi then 0 else XorRange(s, lo, hi - 1) ^ s[hi - 1]
  }

  /** calcCrc only stops at a '*' found at index 2 or later; it ignores NUL. */
  predicate CrcDefined(s: Bytes) {
    OccursFrom(s, 2, STAR)
  }

  /** The checksum calcCrc computes: the XOR of the bytes from index 1 up
      to, not including, the first '*' at index 2 or later. */
  function Crc(s: Bytes): byte
    requires CrcDefined(s)
  {
    XorRange(s, 1, FirstFrom(s, 2, STAR))
  }

  /** `calcCrc` */
  method CalcCrc(sentence: array<byte>) returns (crc: byte)
    requires CrcDefined(sentence[..])
    ensures crc == Crc(sentence[..])
  {
    ghost var s := sentence[..];
    ghost var k := FirstFrom(s, 2, STAR);
    crc := sentence[1];
    var i := 2;
    while sentence[i] != STAR
      invariant 2 <= i <= k
      invariant crc == XorRange(s, 1, i)
      decreases k - i
    {
      crc := crc ^ sentence[i];
      i := i + 1;
    }
  }

  // ---------------------------------------------------------------------
  // finalizeSendSentence (the buffer part; the port write is left out)
  // ---------------------------------------------------------------------

  /** `strlen` of the buffer: the index of its first NUL. */
  function Strlen(s: Bytes): nat
    requires OccursFrom(s, 0, NUL)
  {
    FirstFrom(s, 0, NUL)
  }

  /** The C string of a buffer that holds `text` and then a NUL. */
  lemma CStrOfTerminated(text: Bytes, rest: Bytes)
    requires NUL !in text
    ensures CStr(text + [NUL] + rest) == text
  {
    var s := text + [NUL] + rest;
    assert s[|text|] == NUL;
    assert OccursFrom(s, 0, NUL);
    assert forall j :: 0 <= j < |text| ==> s[j] == text[j];
    assert s[..FirstFrom(s, 0, NUL)] == text;
  }

  /** The digits, CR and LF of a checksum tail are never NUL. */
  lemma CrcTailHasNoNul(crc: byte)
    ensures NUL !in CrcTail(crc)
  {
    var t := CrcTail(crc);
    assert t[0] != NUL && t[1] != NUL;
  }

  /** Writing `tail` and a NUL over the terminator of the C string in `s`
      extends that C string by `tail`. */
  lemma AppendToCStr(s: Bytes, n: nat, tail: Bytes)
    requires OccursFrom(s, 0, NUL) && n == Strlen(s) && n + |tail| + 1 <= |s|
    requires NUL !in tail
    ensures CStr(s[..n] + tail + [NUL] + s[n + |tail| + 1..]) == CStr(s) + tail
  {
    assert s == s[..n] + [NUL] + s[n + 1..];
    CStrOfTerminated(s[..n], s[n + 1..]);
    CStrOfTerminated(s[..n] + tail, s[n + |tail| + 1..]);
  }

  /** Appends the checksum's two hex digits, CR and LF to the C string in
      `sentence` (the checksum is taken before anything is appended). */
  method FinalizeSendSentence(sentence: array<byte>)
    requires CrcDefined(sentence[..])
    requires OccursFrom(sentence[..], 0, NUL)
    requires Strlen(sentence[..]) + 5 <= sentence.Length
    modifies sentence
    ensures var n := Strlen(old(sentence[..]));
      sentence[..] == old(sentence[..n]) + CrcTail(Crc(old(sentence[..]))) + [NUL] + old(sentence[n + 5..])
    ensures CStr(sentence[..]) == old(CStr(sentence[..])) + CrcTail(Crc(old(sentence[..])))
  {
    ghost var s := sentence[..];
    var crc := CalcCrc(sentence);
    var tail := CrcTail(crc);
    var n := Strlen(sentence[..]);
    ghost var after := s[..n] + tail + [NUL] + s[n + 5..];
    sentence[n] := tail[0];
    sentence[n + 1] := tail[1];
    sentence[n + 2] := tail[2];
    sentence[n + 3] := tail[3];
    sentence[n + 4] := NUL;
    forall j | 0 <= j < sentence.Length ensures sentence[j] == after[j] {
      if j >= n + 5 { assert after[j] == s[j]; }
    }
    assert sentence[..] == after;
    CrcTailHasNoNul(crc);
    AppendToCStr(s, n, tail);
  }

  // ---------------------------------------------------------------------
  // splitFields
  // ---------------------------------------------------------------------

  /** The outcome of splitFields on a buffer: the count it returns, the
      fields it pushed and the buffer afterwards; `Undefined` when the C
      code would have undefined behaviour. */
  datatype SplitResult =
    | Undefined
    | Split(count: int, fields: seq<Bytes>, buffer: Bytes)

  /** The loop of splitFields from the state (buffer `buf`, `chr` at index
      `i`, `begin` at index `begin`, fields pushed so far `fields`), with
      `crc` the checksum computed before the loop. */
  function Scan(buf: Bytes, i: nat, begin: nat, crc: byte, fields: seq<Bytes>): SplitResult
    decreases |buf| - i
  {
    if i >= |buf| then Undefined
    else if buf[i] == NUL then Split(|fields|, fields, buf)
    else if buf[i] == COMMA then
      if i < begin + 1 then Undefined
      else Scan(buf, i + 1, i + 1, crc, fields + [buf[..i - begin - 1]])
    else if buf[i] == STAR then
      if i < begin + 1 || i + 2 >= |buf| then Undefined
      else if HexPair(buf[i + 1], buf[i + 2]) != crc then Split(0, fields + [buf[..i - begin - 1]], buf)
      else Scan(buf[i := NUL], i + 1, begin, crc, fields + [buf[..i - begin - 1]])
    else Scan(buf, i + 1, begin, crc, fields)
  }

  /** splitFields on a whole buffer: the checksum first, then the scan
      from index 1 with `begin` at index 0 and no fields. */
  function SplitSpec(s: Bytes): SplitResult {
    if !CrcDefined(s) then Undefined else Scan(s, 1, 0, Crc(s), [])
  }

  /** `splitFields`: returns the count and the fields it pushed (the vector
      starts out cleared), and overwrites each checked '*' with NUL. */
  method SplitFields(source: array<byte>) returns (count: int, fields: seq<Bytes>)
    requires SplitSpec(source[..]).Split?
    modifies source
    ensures SplitSpec(old(source[..])) == Split(count, fields, source[..])
  {
    ghost var result := SplitSpec(source[..]);
    var actualCrc := CalcCrc(source);
    fields := [];
    var chr, begin := 1, 0;
    while source[chr] != NUL
      invariant begin <= chr
      invariant Scan(source[..], chr, begin, actualCrc, fields) == result
      decreases source.Length - chr
    {
      if source[chr] == COMMA {
        fields := fields + [source[..chr - begin - 1]];
        begin := chr + 1;
      } else if source[chr] == STAR {
        fields := fields + [source[..chr - begin - 1]];
        var crc := HexValue(source[chr + 1]) * 16 + HexValue(source[chr + 2]);
        if crc != actualCrc {
          return 0, fields;
        }
        source[chr] := NUL;
      }
      chr := chr + 1;
    }
    count := |fields|;
  }

  // ---------------------------------------------------------------------
  // parseCtlUnitData
  // ---------------------------------------------------------------------

  /** The lamp id the command names: `atoi(fields[0].c_str() + 1)`. */
  function LampId(r: SplitResult): int
    requires r.Split? && |r.fields| > 0 && |r.fields[0]| > 0
  {
    Atoi(r.fields[0][1..])
  }

  /** parseCtlUnitData reads `fields[0]` past its first character only when
      more than 4 fields came back; on an empty `fields[0]` that read is
      undefined behaviour. */
  predicate ParseDefined(r: SplitResult) {
    r.Split? && (r.count > 4 ==> |r.fields| > 3 && |r.fields[0]| > 0)
  }

  /** The command is applied: more than 4 fields and lamp 1. */
  predicate CommandApplies(r: SplitResult)
    requires ParseDefined(r)
  {
    r.count > 4 && LampId(r) == 1
  }

  /** `parseCtlUnitData`: splits the buffer and, when the command applies,
      sets the requested elevation, bearing and focus from fields 2, 1 and 3;
      otherwise the requested values are untouched. `atof` is the C
      library's string-to-double conversion, not modelled here. */
  method ParseCtlUnitData(source: array<byte>, ctx: Defs.Ctx, atof: Bytes -> real)
    requires SplitSpec(source[..]).Split?
    requires ParseDefined(SplitSpec(source[..]))
    modifies source, ctx`requestedBrg, ctx`requestedElev, ctx`requestedFocus
    ensures var r := SplitSpec(old(source[..]));
      source[..] == r.buffer &&
      if CommandApplies(r) then
        ctx.requestedElev == atof(CStr(r.fields[2])) &&
        ctx.requestedBrg == atof(CStr(r.fields[1])) &&
        ctx.requestedFocus == (Atoi(r.fields[3]) % 256) as byte
      else
        ctx.requestedElev == old(ctx.requestedElev) &&
        ctx.requestedBrg == old(ctx.requestedBrg) &&
        ctx.requestedFocus == old(ctx.requestedFocus)
  {
    var numOfFields, fields := SplitFields(source);
    if numOfFields > 4 {
      var lampId := Atoi(fields[0][1..]);
      if lampId != 1 {
        return;
      }
      ctx.requestedElev := atof(CStr(fields[2]));
      ctx.requestedBrg := atof(CStr(fields[1]));
      ctx.requestedFocus := (Atoi(fields[3]) % 256) as byte;
    }
  }
}
