/** splitFields (serial.cpp:65, 68) builds every field from the start of the
    buffer, `std::string(source, chr - begin - 1)`, where the text between
    separators, `std::string(begin, chr - begin)`, is evidently meant. This
    module states what the code as written yields and proves the intended
    round trip for the corrected split. */
module Findings {
  import opened Ascii
  import opened Serial
  import opened SentenceProps

  // ---------------------------------------------------------------------
  // As written: every field is a prefix of the buffer
  // ---------------------------------------------------------------------

  /** Every non-empty field starts with `c`. */
  predicate LeadBy(fields: seq<Bytes>, c: byte) {
    forall k :: 0 <= k < |fields| && |fields[k]| > 0 ==> fields[k][0] == c
  }

  /** The scan never touches the first byte of the buffer, and each field
      it pushes is a prefix of the buffer, so every field starts with that
      first byte. */
  lemma {:induction false} ScanFieldsLead(buf: Bytes, i: nat, begin: nat, crc: byte, acc: seq<Bytes>)
    requires 1 <= i && |buf| > 0 && LeadBy(acc, buf[0])
    requires Scan(buf, i, begin, crc, acc).Split?
    ensures LeadBy(Scan(buf, i, begin, crc, acc).fields, buf[0])
    ensures |Scan(buf, i, begin, crc, acc).buffer| > 0 && Scan(buf, i, begin, crc, acc).buffer[0] == buf[0]
    decreases |buf| - i
  {
    var j := i + 1;
    if buf[i] == NUL {
    } else if buf[i] == COMMA {
      var acc' := acc + [buf[..i - begin - 1]];
      assert LeadBy(acc', buf[0]);
      ScanFieldsLead(buf, j, j, crc, acc');
    } else if buf[i] == STAR {
      var acc' := acc + [buf[..i - begin - 1]];
      assert LeadBy(acc', buf[0]);
      if HexPair(buf[i + 1], buf[i + 2]) == crc {
        var buf' := buf[i := NUL];
        assert buf'[0] == buf[0];
        ScanFieldsLead(buf', j, begin, crc, acc');
      }
    } else {
      ScanFieldsLead(buf, j, begin, crc, acc);
    }
  }

  /** Every field splitFields returns starts with the buffer's first byte. */
  lemma SplitFieldsLead(s: Bytes)
    requires SplitSpec(s).Split?
    ensures |s| > 0 && LeadBy(SplitSpec(s).fields, s[0])
  {
    ScanFieldsLead(s, 1, 0, Crc(s), []);
  }

  /** As written, a command sentence that starts with '$' and is applied
      always sets the requested focus to 0: `fields[3]` starts with '$' (or
      is empty), and `atoi` reads that as 0. */
  lemma AppliedFocusIsZero(s: Bytes)
    requires ParseDefined(SplitSpec(s)) && CommandApplies(SplitSpec(s))
    requires |s| > 0 && s[0] == DOLLAR
    ensures (Atoi(SplitSpec(s).fields[3]) % 256) as byte == 0
  {
    SplitFieldsLead(s);
    AtoiOfNonNumeric(SplitSpec(s).fields[3]);
  }

  // ---------------------------------------------------------------------
  // The sentence a list of fields encodes to
  // ---------------------------------------------------------------------

  /** A field that can be sent as is: no separator and no NUL. */
  predicate PlainField(f: Bytes) {
    forall k :: 0 <= k < |f| ==> !IsSep(f[k]) && f[k] != NUL
  }

  predicate PlainFields(fs: seq<Bytes>) {
    |fs| >= 1 && forall k :: 0 <= k < |fs| ==> PlainField(fs[k])
  }

  /** The fields joined by ','. */
  function JoinFields(fs: seq<Bytes>): (q: Bytes)
    requires |fs| >= 1
    ensures |q| >= |fs[0]| && q[..|fs[0]|] == fs[0]
    ensures PlainFields(fs) ==> STAR !in q && NUL !in q
  {
    if |fs| == 1 then fs[0] else fs[0] + [COMMA] + JoinFields(fs[1..])
  }

  /** As written, the round trip of a sentence fails as soon as a field
      after the first is not empty and starts with a byte other than the
      first field's first byte. */
  lemma AsWrittenRoundTripFails(fs: seq<Bytes>, rest: Bytes)
    requires PlainFields(fs) && |fs| >= 2
    requires forall k :: 0 <= k < |fs| ==> |fs[k]| > 0
    requires fs[1][0] != fs[0][0]
    ensures WellFormedPayload(JoinFields(fs))
    ensures SplitSpec(Framed(JoinFields(fs), rest)).Split?
    ensures SplitSpec(Framed(JoinFields(fs), rest)).fields != fs
  {
    var q := JoinFields(fs);
    JoinedIsWellFormed(fs);
    FramedSentenceAccepted(q, rest);
    var s := Framed(q, rest);
    assert s[0] == q[0] == fs[0][0];
    SplitFieldsLead(s);
    var r := SplitSpec(s);
    assert |r.fields| < 2 || r.fields[1] != fs[1];
  }

  lemma {:induction false} JoinedIsWellFormed(fs: seq<Bytes>)
    requires PlainFields(fs) && |fs| >= 2
    requires forall k :: 0 <= k < |fs| ==> |fs[k]| > 0
    ensures WellFormedPayload(JoinFields(fs))
    decreases |fs|
  {
    var q, n, tail := JoinFields(fs), |fs[0]|, fs[1..];
    var q' := JoinFields(tail);
    assert q == fs[0] + [COMMA] + q';
    assert q'[0] == tail[0][0] != COMMA;
    if |fs| > 2 {
      JoinedIsWellFormed(tail);
    }
    forall j | 1 <= j < |q| && q[j] == COMMA ensures j + 1 < |q| && q[j + 1] != COMMA {
      if j > n {
        assert q[j] == q'[j - n - 1];
        assert q[j + 1] == q'[j - n];
      }
    }
  }

  // ---------------------------------------------------------------------
  // Corrected: each field is the text between two separators
  // ---------------------------------------------------------------------

  /** The loop of splitFields with the field taken from `begin` up to the
      separator; everything else as in `Serial.Scan`. */
  function IntendedScan(buf: Bytes, i: nat, begin: nat, crc: byte, fields: seq<Bytes>): SplitResult
    requires begin <= i
    decreases |buf| - i
  {
    if i >= |buf| then Undefined
    else if buf[i] == NUL then Split(|fields|, fields, buf)
    else if buf[i] == COMMA then IntendedScan(buf, i + 1, i + 1, crc, fields + [buf[begin..i]])
    else if buf[i] == STAR then
      if i + 2 >= |buf| then Undefined
      else if HexPair(buf[i + 1], buf[i + 2]) != crc then Split(0, fields + [buf[begin..i]], buf)
      else IntendedScan(buf[i := NUL], i + 1, begin, crc, fields + [buf[begin..i]])
    else IntendedScan(buf, i + 1, begin, crc, fields)
  }

  function IntendedSplit(s: Bytes): SplitResult {
    if !CrcDefined(s) then Undefined else IntendedScan(s, 1, 0, Crc(s), [])
  }

  /** Bytes that are neither separator nor NUL leave the scan's result
      as it is. */
  lemma {:induction false} IntendedSkip(buf: Bytes, i: nat, e: nat, b: nat, crc: byte, acc: seq<Bytes>)
    requires b <= i <= e < |buf|
    requires forall j :: i <= j < e ==> !IsSep(buf[j]) && buf[j] != NUL
    ensures IntendedScan(buf, i, b, crc, acc) == IntendedScan(buf, e, b, crc, acc)
    decreases e - i
  {
    if i < e {
      var j := i + 1;
      IntendedSkip(buf, j, e, b, crc, acc);
    }
  }

  /** The fields `fs` joined by ',' sit in `buf` from `b` up to a '*' at
      `m` with a matching checksum, and a NUL at `t` ends the sentence:
      scanning from inside the first of them pushes exactly `fs`. */
  lemma {:induction false} IntendedFieldsFrom(buf: Bytes, b: nat, i: nat, crc: byte, acc: seq<Bytes>,
                                               fs: seq<Bytes>, m: nat, t: nat)
    requires PlainFields(fs)
    requires 1 <= i && b <= i <= b + |fs[0]|
    requires m == b + |JoinFields(fs)| && m + 2 < |buf| && buf[b..m] == JoinFields(fs)
    requires buf[m] == STAR && HexPair(buf[m + 1], buf[m + 2]) == crc
    requires m < t < |buf| && buf[t] == NUL
    requires forall j :: m < j < t ==> !IsSep(buf[j]) && buf[j] != NUL
    ensures IntendedScan(buf, i, b, crc, acc) == Split(|acc + fs|, acc + fs, buf[m := NUL])
    decreases |fs|
  {
    var f, fs' := fs[0], fs[1..];
    var e := b + |f|;
    var e1, acc' := e + 1, acc + [f];
    FirstOfJoin(buf, b, m, fs, e);
    IntendedSkip(buf, i, e, b, crc, acc);
    assert fs == [f] + fs';
    assert acc' + fs' == acc + fs;
    if |fs| == 1 {
      var buf' := buf[m := NUL];
      IntendedAtStar(buf, m, b, crc, acc, buf', e1, acc');
      assert forall j :: e1 <= j < t ==> buf'[j] == buf[j];
      IntendedSkip(buf', e1, t, b, crc, acc');
    } else {
      RestOfJoin(buf, b, m, fs, e, e1);
      IntendedAtComma(buf, e, b, crc, acc, e1, acc');
      IntendedFieldsFrom(buf, e1, e1, crc, acc', fs', m, t);
    }
  }

  /** Where the first field of a joined run of fields ends. */
  lemma FirstOfJoin(buf: Bytes, b: nat, m: nat, fs: seq<Bytes>, e: nat)
    requires PlainFields(fs) && b <= m <= |buf| && buf[b..m] == JoinFields(fs)
    requires e == b + |fs[0]|
    ensures e <= m && buf[b..e] == fs[0]
    ensures forall j :: b <= j < e ==> !IsSep(buf[j]) && buf[j] != NUL
    ensures |fs| == 1 ==> e == m
  {
    assert buf[b..e] == buf[b..m][..|fs[0]|];
    assert forall j :: b <= j < e ==> buf[j] == fs[0][j - b];
  }

  /** The ',' after the first field and the run of the other fields. */
  lemma RestOfJoin(buf: Bytes, b: nat, m: nat, fs: seq<Bytes>, e: nat, e1: nat)
    requires |fs| > 1 && b <= m <= |buf| && buf[b..m] == JoinFields(fs)
    requires e == b + |fs[0]| && e1 == e + 1
    ensures e1 <= m && buf[e] == COMMA && buf[e1..m] == JoinFields(fs[1..])
    ensures m == e1 + |JoinFields(fs[1..])|
  {
    var q := buf[b..m];
    assert q == fs[0] + [COMMA] + JoinFields(fs[1..]);
    assert buf[e] == q[|fs[0]|];
    assert buf[e1..m] == q[|fs[0]| + 1..];
  }

  /** One step of the corrected scan at a ','. */
  lemma IntendedAtComma(buf: Bytes, e: nat, b: nat, crc: byte, acc: seq<Bytes>, j: nat, acc': seq<Bytes>)
    requires b <= e < |buf| && buf[e] == COMMA
    requires j == e + 1 && acc' == acc + [buf[b..e]]
    ensures IntendedScan(buf, e, b, crc, acc) == IntendedScan(buf, j, j, crc, acc')
  {
  }

  /** One step of the corrected scan at a '*' whose checksum matches. */
  lemma IntendedAtStar(buf: Bytes, m: nat, b: nat, crc: byte, acc: seq<Bytes>,
                       buf': Bytes, j: nat, acc': seq<Bytes>)
    requires b <= m && m + 2 < |buf| && buf[m] == STAR && HexPair(buf[m + 1], buf[m + 2]) == crc
    requires buf' == buf[m := NUL] && j == m + 1 && acc' == acc + [buf[b..m]]
    ensures IntendedScan(buf, m, b, crc, acc) == IntendedScan(buf', j, b, crc, acc')
  {
  }

  /** The round trip splitFields is meant to complete: the sentence the
      fields encode to, framed as finalizeSendSentence frames it, splits
      back into exactly those fields. An empty field is kept as one. */
  lemma IntendedRoundTrip(fs: seq<Bytes>, rest: Bytes)
    requires PlainFields(fs) && |fs[0]| >= 1 && |JoinFields(fs)| >= 2
    ensures var q := JoinFields(fs);
      IntendedSplit(Framed(q, rest)) ==
        Split(|fs|, fs, q + [NUL] + CrcTail(XorRange(q, 1, |q|)) + [NUL] + rest)
  {
    var q := JoinFields(fs);
    var n, crc := |q|, XorRange(q, 1, |q|);
    var s, t := Framed(q, rest), n + 5;
    FramedLayout(q, rest, s, n, crc);
    FramedTail(q, rest, s, n, t);
    var none: seq<Bytes> := [];
    IntendedFieldsFrom(s, 0, 1, crc, none, fs, n, t);
    assert none + fs == fs;
    assert IntendedSplit(s) == IntendedScan(s, 1, 0, crc, none);
  }

  /** A framed star-free text: the text, then a '*' followed by the
      text's checksum digits. */
  lemma FramedLayout(q: Bytes, rest: Bytes, s: Bytes, n: nat, crc: byte)
    requires StarFreePayload(q) && s == Framed(q, rest)
    requires n == |q| && crc == XorRange(q, 1, |q|)
    ensures CrcDefined(s) && Crc(s) == crc
    ensures n + 2 < |s| && s[..n] == q && s[n] == STAR && HexPair(s[n + 1], s[n + 2]) == crc
    ensures s[n := NUL] == q + [NUL] + CrcTail(crc) + [NUL] + rest
  {
    var tail := CrcTail(crc);
    var r := tail + [NUL] + rest;
    assert s == q + [STAR] + r;
    CrcOfPayload(q, r);
    Splice(q, STAR, r, s, n, NUL);
    assert r[0] == tail[0] && r[1] == tail[1];
    assert r[0] == tail[0] && r[1] == tail[1];
  }
  /** The bytes of `q` + [x] + `r`, and the same with `x` replaced. */
  lemma Splice(q: Bytes, x: byte, r: Bytes, s: Bytes, n: nat, y: byte)
    requires s == q + [x] + r && n == |q|
    ensures s[..n] == q && s[n] == x
    ensures forall k :: 0 <= k < |r| ==> s[n + 1 + k] == r[k]
    ensures s[n := y] == q + [y] + r
  {
  }



  /** After the '*' of a framed text come four bytes that are neither
      separator nor NUL, then the terminator. */
  lemma FramedTail(q: Bytes, rest: Bytes, s: Bytes, n: nat, t: nat)
    requires |q| >= 2 && s == Framed(q, rest) && n == |q| && t == n + 5
    ensures t < |s| && s[t] == NUL && forall j :: n < j < t ==> !IsSep(s[j]) && s[j] != NUL
  {
    var tail := CrcTail(XorRange(q, 1, |q|));
    FramedBytes(q, rest);
    CrcTailHasNoSep(XorRange(q, 1, |q|));
    CrcTailHasNoNul(XorRange(q, 1, |q|));
    assert forall j :: n < j < t ==> s[j] == tail[j - n - 1];
  }


}
