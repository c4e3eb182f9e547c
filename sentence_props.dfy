/** What the sentence codec of serial.cpp promises, stated against
    definitions independent of the C loop: where the separators are, where
    each field starts, which stars get overwritten, and whether the
    checksum digits match. */
module SentenceProps {
  import opened Ascii
  import opened Serial

  // ---------------------------------------------------------------------
  // Reference definitions
  // ---------------------------------------------------------------------

  predicate IsSep(c: byte) { c == COMMA || c == STAR }

  /** The indices in [lo, hi) that hold ',' or '*', in increasing order. */
  function Seps(s: Bytes, lo: nat, hi: nat): (r: seq<nat>)
    requires lo <= hi <= |s|
    ensures forall k :: 0 <= k < |r| ==> lo <= r[k] < hi && IsSep(s[r[k]])
    decreases hi - lo
  {
    if lo == hi then [] else (if IsSep(s[lo]) then [lo] else []) + Seps(s, lo + 1, hi)
  }

  /** Where the field ending at index `j` starts: one past the last ','
      in [1, j), or 0 when there is none. Only ',' moves the start. */
  function FieldStart(s: Bytes, j: nat): (b: nat)
    requires 1 <= j <= |s|
    ensures b <= j
  {
    if j == 1 then 0 else if s[j - 1] == COMMA then j else FieldStart(s, j - 1)
  }

  /** `s` with every '*' in [lo, hi) replaced by NUL. */
  function ClearStars(s: Bytes, lo: nat, hi: nat): (r: Bytes)
    ensures |r| == |s|
  {
    seq(|s|, k requires 0 <= k < |s| => if lo <= k < hi && s[k] == STAR then NUL else s[k])
  }

  /** Every '*' in [lo, hi) is followed by two bytes in the buffer that
      read, as hex, as `crc`. */
  predicate StarsMatch(s: Bytes, lo: nat, hi: nat, crc: byte) {
    forall j :: lo <= j < hi && j < |s| && s[j] == STAR ==> j + 2 < |s| && HexPair(s[j + 1], s[j + 2]) == crc
  }

  /** No ',' in [1, hi) is directly followed by a separator in [lo, hi):
      otherwise splitFields would build a field of length -1. */
  predicate SeparatorsSpaced(s: Bytes, lo: nat, hi: nat) {
    forall j :: lo <= j < hi && 2 <= j && j < |s| && IsSep(s[j]) ==> s[j - 1] != COMMA
  }

  predicate NoNulIn(s: Bytes, lo: nat, hi: nat) {
    forall j :: lo <= j < hi && j < |s| ==> s[j] != NUL
  }

  // ---------------------------------------------------------------------
  // Facts about the reference definitions
  // ---------------------------------------------------------------------

  lemma {:induction false} XorRangeSameBytes(s: Bytes, t: Bytes, lo: nat, hi: nat)
    requires lo <= hi <= |s| && hi <= |t|
    requires s[lo..hi] == t[lo..hi]
    ensures XorRange(s, lo, hi) == XorRange(t, lo, hi)
    decreases hi - lo
  {
    if lo < hi {
      assert s[hi - 1] == s[lo..hi][hi - 1 - lo] == t[hi - 1];
      assert s[lo..hi - 1] == s[lo..hi][..hi - 1 - lo];
      assert t[lo..hi - 1] == t[lo..hi][..hi - 1 - lo];
      XorRangeSameBytes(s, t, lo, hi - 1);
    }
  }

  /** Changing one byte inside the range changes the XOR by exactly the
      difference of old and new byte. */
  lemma {:induction false} XorRangeUpdate(s: Bytes, lo: nat, hi: nat, j: nat, x: byte)
    requires lo <= j < hi <= |s|
    ensures XorRange(s[j := x], lo, hi) == XorRange(s, lo, hi) ^ s[j] ^ x
    decreases hi - lo
  {
    if j == hi - 1 {
      XorRangeSameBytes(s[j := x], s, lo, hi - 1);
    } else {
      XorRangeUpdate(s, lo, hi - 1, j, x);
    }
  }

  lemma {:induction false} SepsSameBytes(s: Bytes, t: Bytes, lo: nat, hi: nat)
    requires lo <= hi <= |s| && hi <= |t|
    requires forall k :: lo <= k < hi ==> s[k] == t[k]
    ensures Seps(s, lo, hi) == Seps(t, lo, hi)
    decreases hi - lo
  {
    if lo < hi { SepsSameBytes(s, t, lo + 1, hi); }
  }

  lemma {:induction false} SepsAppend(s: Bytes, lo: nat, mid: nat, hi: nat)
    requires lo <= mid <= hi <= |s|
    ensures Seps(s, lo, hi) == Seps(s, lo, mid) + Seps(s, mid, hi)
    decreases mid - lo
  {
    if lo < mid {
      SepsAppend(s, lo + 1, mid, hi);
    }
  }

  lemma {:induction false} NoSepsInRange(s: Bytes, lo: nat, hi: nat)
    requires lo <= hi <= |s|
    requires forall k :: lo <= k < hi ==> !IsSep(s[k])
    ensures Seps(s, lo, hi) == []
    decreases hi - lo
  {
    if lo < hi { NoSepsInRange(s, lo + 1, hi); }
  }

  /** A range whose only separator is its first byte. */
  lemma OnlySep(s: Bytes, lo: nat, hi: nat)
    requires lo < hi <= |s| && IsSep(s[lo])
    requires forall k :: lo < k < hi ==> !IsSep(s[k])
    ensures Seps(s, lo, hi) == [lo]
  {
    NoSepsInRange(s, lo + 1, hi);
    assert Seps(s, lo, hi) == [lo] + [];
  }

  lemma ClearStarsStep(s: Bytes, i: nat)
    requires 1 <= i < |s|
    ensures s[i] == STAR ==> ClearStars(s, 1, i)[i := NUL] == ClearStars(s, 1, i + 1)
    ensures s[i] != STAR ==> ClearStars(s, 1, i) == ClearStars(s, 1, i + 1)
  {
  }

  // ---------------------------------------------------------------------
  // splitFields
  // ---------------------------------------------------------------------

  /** The count is 0 (rejected, or nothing found) or the number of fields,
      and the fields already pushed stay in front. */
  lemma {:induction false} ScanCount(buf: Bytes, i: nat, begin: nat, crc: byte, acc: seq<Bytes>)
    requires Scan(buf, i, begin, crc, acc).Split?
    ensures var r := Scan(buf, i, begin, crc, acc);
      (r.count == 0 || r.count == |r.fields|) && |acc| <= |r.fields| && r.fields[..|acc|] == acc
    decreases |buf| - i
  {
    if i < |buf| && buf[i] != NUL {
      var j := i + 1;
      if buf[i] == COMMA {
        var acc' := acc + [buf[..i - begin - 1]];
        assert acc'[..|acc|] == acc;
        ScanCount(buf, j, j, crc, acc');
      } else if buf[i] == STAR {
        var acc' := acc + [buf[..i - begin - 1]];
        assert acc'[..|acc|] == acc;
        if HexPair(buf[i + 1], buf[i + 2]) == crc {
          ScanCount(buf[i := NUL], j, begin, crc, acc');
        }
      } else {
        ScanCount(buf, j, begin, crc, acc);
      }
    }
  }

  /** A non-zero count is the number of fields pushed; in particular
      parseCtlUnitData can index fields 0 to 3 whenever it sees more than 4. */
  lemma SplitCount(s: Bytes)
    requires SplitSpec(s).Split?
    ensures SplitSpec(s).count == 0 || SplitSpec(s).count == |SplitSpec(s).fields|
  {
    ScanCount(s, 1, 0, Crc(s), []);
  }

  /** The field splitFields pushes when `chr` is at a separator `i`. */
  function NewField(s: Bytes, i: nat): seq<Bytes>
    requires 1 <= i < |s|
  {
    if IsSep(s[i]) && FieldStart(s, i) < i then [ClearStars(s, 1, i)[..i - FieldStart(s, i) - 1]] else []
  }

  /** A prefix that ends before `i` is not touched by clearing stars at or
      after `i`. */
  lemma ClearedPrefixStable(s: Bytes, i: nat, t: nat, len: nat)
    requires len <= i <= t
    requires len <= |s|
    ensures ClearStars(s, 1, i)[..len] == ClearStars(s, 1, t)[..len]
  {
  }

  /** One turn of the splitFields loop at a byte that is not the
      terminator, when it neither rejects nor has undefined behaviour. */
  lemma ScanStep(s: Bytes, i: nat, crc: byte, acc: seq<Bytes>, j: nat, acc': seq<Bytes>)
    requires 1 <= i < |s| && s[i] != NUL && j == i + 1 && acc' == acc + NewField(s, i)
    requires IsSep(s[i]) && i >= 2 ==> s[i - 1] != COMMA
    requires s[i] == STAR ==> i + 2 < |s| && HexPair(s[i + 1], s[i + 2]) == crc
    ensures IsSep(s[i]) ==> FieldStart(s, i) < i
    ensures Scan(ClearStars(s, 1, i), i, FieldStart(s, i), crc, acc)
         == Scan(ClearStars(s, 1, j), j, FieldStart(s, j), crc, acc')
  {
    ClearStarsStep(s, i);
    var buf, begin := ClearStars(s, 1, i), FieldStart(s, i);
    assert buf[i] == s[i];
    if IsSep(s[i]) && i >= 2 {
      assert s[i - 1] != COMMA;
    }
    if s[i] == COMMA {
      assert NewField(s, i) == [buf[..i - begin - 1]];
    } else if s[i] == STAR {
      assert buf[i + 1] == s[i + 1] && buf[i + 2] == s[i + 2];
      assert NewField(s, i) == [buf[..i - begin - 1]];
      assert FieldStart(s, i + 1) == begin;
      assert Scan(buf, i, begin, crc, acc) == Scan(buf[i := NUL], i + 1, begin, crc, acc + NewField(s, i));
    } else {
      assert acc + NewField(s, i) == acc;
    }
  }

  /** The text of the field that ends at separator `j` once the scan has
      reached the terminator `t`: the prefix of the final buffer whose
      length is `j` minus the field start minus 1. */
  function FieldText(s: Bytes, t: nat, j: nat): Bytes
    requires 1 <= j <= t <= |s|
  {
    if FieldStart(s, j) < j then ClearStars(s, 1, t)[..j - FieldStart(s, j) - 1] else []
  }

  /** The fields for the separators `seps`, in order. */
  function FieldsFor(s: Bytes, t: nat, seps: seq<nat>): (fs: seq<Bytes>)
    requires t <= |s|
    requires forall k :: 0 <= k < |seps| ==> 1 <= seps[k] <= t
    ensures |fs| == |seps|
  {
    if seps == [] then [] else [FieldText(s, t, seps[0])] + FieldsFor(s, t, seps[1..])
  }

  lemma {:induction false} FieldsForAt(s: Bytes, t: nat, seps: seq<nat>, k: nat)
    requires t <= |s|
    requires forall k :: 0 <= k < |seps| ==> 1 <= seps[k] <= t
    requires k < |seps|
    ensures FieldsFor(s, t, seps)[k] == FieldText(s, t, seps[k])
  {
    if k > 0 { FieldsForAt(s, t, seps[1..], k - 1); }
  }

  /** Every separator in [lo, hi) has a field start below it. */
  lemma {:induction false} FieldStartsBelow(s: Bytes, lo: nat, hi: nat)
    requires 1 <= lo <= hi <= |s| && SeparatorsSpaced(s, lo, hi)
    ensures forall k :: 0 <= k < |Seps(s, lo, hi)| ==> FieldStart(s, Seps(s, lo, hi)[k]) < Seps(s, lo, hi)[k]
    decreases hi - lo
  {
    if lo < hi {
      if IsSep(s[lo]) && lo >= 2 { assert s[lo - 1] != COMMA; }
      FieldStartsBelow(s, lo + 1, hi);
    }
  }

  /** The fields pushed at separator `i` followed by those for the
      separators after it are the fields for the separators from `i` on. */
  lemma FieldsStep(s: Bytes, t: nat, i: nat, acc: seq<Bytes>, j: nat, acc': seq<Bytes>)
    requires 1 <= i < t < |s| && j == i + 1 && acc' == acc + NewField(s, i)
    requires IsSep(s[i]) && i >= 2 ==> s[i - 1] != COMMA
    ensures acc' + FieldsFor(s, t, Seps(s, j, t)) == acc + FieldsFor(s, t, Seps(s, i, t))
  {
    var rest := Seps(s, j, t);
    if IsSep(s[i]) {
      var f := FieldAtSep(s, t, i, j);
      assert (acc + [f]) + FieldsFor(s, t, rest) == acc + ([f] + FieldsFor(s, t, rest));
    } else {
      assert Seps(s, i, t) == [] + rest == rest;
      assert acc' == acc + [] == acc;
    }
  }

  /** At a separator `i`, the field pushed is the one for `i` in the final
      buffer, and it heads the fields for the separators from `i` on. */
  lemma FieldAtSep(s: Bytes, t: nat, i: nat, j: nat) returns (f: Bytes)
    requires 1 <= i < t < |s| && j == i + 1 && IsSep(s[i])
    requires i >= 2 ==> s[i - 1] != COMMA
    ensures NewField(s, i) == [f]
    ensures FieldsFor(s, t, Seps(s, i, t)) == [f] + FieldsFor(s, t, Seps(s, j, t))
  {
    var rest := Seps(s, j, t);
    assert FieldStart(s, i) < i;
    ClearedPrefixStable(s, i, t, i - FieldStart(s, i) - 1);
    f := FieldText(s, t, i);
    assert Seps(s, i, t) == [i] + rest;
    assert ([i] + rest)[1..] == rest;
  }

  /** The scan from index `i` when every star up to the terminator `t`
      matches: it overwrites those stars and pushes one field per separator. */
  lemma {:induction false} ScanAccepts(s: Bytes, t: nat, i: nat, crc: byte, acc: seq<Bytes>)
    requires 1 <= i <= t < |s| && s[t] == NUL && NoNulIn(s, i, t)
    requires StarsMatch(s, i, t, crc) && SeparatorsSpaced(s, i, t)
    ensures Scan(ClearStars(s, 1, i), i, FieldStart(s, i), crc, acc)
         == Split(|acc + FieldsFor(s, t, Seps(s, i, t))|, acc + FieldsFor(s, t, Seps(s, i, t)), ClearStars(s, 1, t))
    decreases t - i, 1
  {
    if i == t {
      AcceptEnd(s, t, crc, acc);
    } else {
      AcceptStep(s, t, i, crc, acc);
    }
  }

  /** The turn of the loop at the terminator. */
  lemma AcceptEnd(s: Bytes, t: nat, crc: byte, acc: seq<Bytes>)
    requires 1 <= t < |s| && s[t] == NUL
    ensures Scan(ClearStars(s, 1, t), t, FieldStart(s, t), crc, acc)
         == Split(|acc + FieldsFor(s, t, Seps(s, t, t))|, acc + FieldsFor(s, t, Seps(s, t, t)), ClearStars(s, 1, t))
  {
    assert ClearStars(s, 1, t)[t] == NUL;
    assert acc + FieldsFor(s, t, Seps(s, t, t)) == acc;
  }

  /** One accepted turn of the loop: the scan from `i` ends where the
      scan from `i + 1` ends, with the fields from `i` on. */
  lemma {:induction false} AcceptStep(s: Bytes, t: nat, i: nat, crc: byte, acc: seq<Bytes>)
    requires 1 <= i < t < |s| && s[t] == NUL && NoNulIn(s, i, t)
    requires StarsMatch(s, i, t, crc) && SeparatorsSpaced(s, i, t)
    ensures Scan(ClearStars(s, 1, i), i, FieldStart(s, i), crc, acc)
         == Split(|acc + FieldsFor(s, t, Seps(s, i, t))|, acc + FieldsFor(s, t, Seps(s, i, t)), ClearStars(s, 1, t))
    decreases t - i, 0
  {
    assert s[i] != NUL;
    assert IsSep(s[i]) && i >= 2 ==> s[i - 1] != COMMA;
    assert s[i] == STAR ==> i + 2 < |s| && HexPair(s[i + 1], s[i + 2]) == crc;
    var acc' := acc + NewField(s, i);
    var j := i + 1;
    ScanStep(s, i, crc, acc, j, acc');
    FieldsStep(s, t, i, acc, j, acc');
    ScanAccepts(s, t, j, crc, acc');
  }

  /** splitFields on a buffer whose every '*' before the terminating NUL
      carries the right checksum: it returns one field per ',' or '*' from
      index 1 on, and overwrites each of those '*' with NUL. */
  lemma SplitAccepts(s: Bytes)
    requires CrcDefined(s) && OccursFrom(s, 1, NUL)
    requires StarsMatch(s, 1, FirstFrom(s, 1, NUL), Crc(s))
    requires SeparatorsSpaced(s, 1, FirstFrom(s, 1, NUL))
    ensures var t := FirstFrom(s, 1, NUL);
      var fs := FieldsFor(s, t, Seps(s, 1, t));
      SplitSpec(s) == Split(|fs|, fs, ClearStars(s, 1, t))
  {
    var t := FirstFrom(s, 1, NUL);
    var fs := FieldsFor(s, t, Seps(s, 1, t));
    assert ClearStars(s, 1, 1) == s;
    ScanAccepts(s, t, 1, Crc(s), []);
    assert [] + fs == fs;
  }

  /** Field k of `r` is the prefix of its buffer whose length is the k-th
      separator's index minus that field's start minus 1, and the start
      lies below the separator. */
  predicate FieldsArePrefixes(s: Bytes, seps: seq<nat>, r: SplitResult)
    requires r.Split?
  {
    |r.fields| == |seps| &&
    forall k :: 0 <= k < |seps| ==>
      1 <= seps[k] <= |s| && seps[k] <= |r.buffer| &&
      FieldStart(s, seps[k]) < seps[k] &&
      r.fields[k] == r.buffer[..seps[k] - FieldStart(s, seps[k]) - 1]
  }

  /** On a buffer splitFields accepts, every field is a prefix of the
      buffer after the call, cut one short of the distance from its start
      to its separator. */
  lemma SplitFieldsArePrefixes(s: Bytes)
    requires CrcDefined(s) && OccursFrom(s, 1, NUL)
    requires StarsMatch(s, 1, FirstFrom(s, 1, NUL), Crc(s))
    requires SeparatorsSpaced(s, 1, FirstFrom(s, 1, NUL))
    ensures SplitSpec(s).Split?
    ensures FieldsArePrefixes(s, Seps(s, 1, FirstFrom(s, 1, NUL)), SplitSpec(s))
  {
    var t := FirstFrom(s, 1, NUL);
    var seps := Seps(s, 1, t);
    SplitAccepts(s);
    FieldStartsBelow(s, 1, t);
    FieldsIndexed(s, t, seps, SplitSpec(s));
  }

  lemma FieldsIndexed(s: Bytes, t: nat, seps: seq<nat>, r: SplitResult)
    requires t <= |s|
    requires forall k :: 0 <= k < |seps| ==> 1 <= seps[k] <= t
    requires forall k :: 0 <= k < |seps| ==> FieldStart(s, seps[k]) < seps[k]
    requires r.Split? && r.fields == FieldsFor(s, t, seps) && r.buffer == ClearStars(s, 1, t)
    ensures FieldsArePrefixes(s, seps, r)
  {
    forall k | 0 <= k < |seps|
      ensures r.fields[k] == r.buffer[..seps[k] - FieldStart(s, seps[k]) - 1]
    {
      FieldsForAt(s, t, seps, k);
    }
  }

  /** The scan from index `i` when the star at `m` is the first whose
      digits disagree with `crc`: it returns 0, having overwritten only the
      stars before `m`. */
  lemma {:induction false} ScanRejects(s: Bytes, m: nat, i: nat, crc: byte, acc: seq<Bytes>)
    requires 1 <= i <= m && m + 2 < |s| && s[m] == STAR && HexPair(s[m + 1], s[m + 2]) != crc
    requires NoNulIn(s, i, m) && StarsMatch(s, i, m, crc) && SeparatorsSpaced(s, i, m + 1)
    ensures var r := Scan(ClearStars(s, 1, i), i, FieldStart(s, i), crc, acc);
      r.Split? && r.count == 0 && r.buffer == ClearStars(s, 1, m)
    decreases m - i
  {
    if i < m {
      assert s[i] != NUL;
      assert IsSep(s[i]) && i >= 2 ==> s[i - 1] != COMMA;
      assert s[i] == STAR ==> i + 2 < |s| && HexPair(s[i + 1], s[i + 2]) == crc;
      var acc' := acc + NewField(s, i);
      var j := i + 1;
      ScanStep(s, i, crc, acc, j, acc');
      ScanRejects(s, m, j, crc, acc');
    } else {
      assert i >= 2 ==> s[i - 1] != COMMA;
      RejectAt(s, i, crc, acc);
    }
  }

  /** The turn of the loop at a '*' whose digits disagree. */
  lemma RejectAt(s: Bytes, i: nat, crc: byte, acc: seq<Bytes>)
    requires 1 <= i && i + 2 < |s| && s[i] == STAR && HexPair(s[i + 1], s[i + 2]) != crc
    requires i >= 2 ==> s[i - 1] != COMMA
    ensures var r := Scan(ClearStars(s, 1, i), i, FieldStart(s, i), crc, acc);
      r.Split? && r.count == 0 && r.buffer == ClearStars(s, 1, i)
  {
    var buf := ClearStars(s, 1, i);
    assert buf[i] == STAR && buf[i + 1] == s[i + 1] && buf[i + 2] == s[i + 2];
    assert FieldStart(s, i) < i;
  }

  /** calcCrc looks for its '*' past the C string's NUL, so a buffer whose
      C string has no '*' but which holds a stale '*' later on is accepted
      with no checksum test at all: one field per ',' and nothing cleared. */
  lemma UncheckedWithoutStar(s: Bytes)
    requires CrcDefined(s) && OccursFrom(s, 1, NUL)
    requires forall j :: 1 <= j < FirstFrom(s, 1, NUL) ==> s[j] != STAR
    requires SeparatorsSpaced(s, 1, FirstFrom(s, 1, NUL))
    ensures var r := SplitSpec(s);
      r.Split? && r.count == |r.fields| == |Seps(s, 1, FirstFrom(s, 1, NUL))| && r.buffer == s
  {
    var t := FirstFrom(s, 1, NUL);
    SplitAccepts(s);
    assert ClearStars(s, 1, t) == s;
  }

  /** splitFields returns 0 as soon as the digits after a '*' disagree with
      the checksum of the unmodified buffer. If that '*' is the first one,
      the buffer is left exactly as it was. */
  lemma SplitRejects(s: Bytes, m: nat)
    requires CrcDefined(s)
    requires 1 <= m && m + 2 < |s| && s[m] == STAR && HexPair(s[m + 1], s[m + 2]) != Crc(s)
    requires NoNulIn(s, 1, m) && StarsMatch(s, 1, m, Crc(s)) && SeparatorsSpaced(s, 1, m + 1)
    ensures var r := SplitSpec(s);
      r.Split? && r.count == 0 && r.buffer == ClearStars(s, 1, m)
    ensures (forall j :: 1 <= j < m ==> s[j] != STAR) ==> SplitSpec(s).buffer == s
  {
    assert ClearStars(s, 1, 1) == s;
    ScanRejects(s, m, 1, Crc(s), []);
  }

  // ---------------------------------------------------------------------
  // A sentence framed by finalizeSendSentence
  // ---------------------------------------------------------------------

  /** Text that can precede the '*' of a sentence: at least two bytes and
      no '*' or NUL after the first byte. */
  predicate StarFreePayload(q: Bytes) {
    |q| >= 2 && forall j :: 1 <= j < |q| ==> q[j] != STAR && q[j] != NUL
  }

  /** The text of an outgoing sentence that splitFields accepts: star-free,
      and no ',' directly followed by another ',' or by the end of the text. */
  predicate WellFormedPayload(q: Bytes) {
    StarFreePayload(q) &&
    (forall j :: 1 <= j < |q| && q[j] == COMMA ==> j + 1 < |q| && q[j + 1] != COMMA)
  }

  /** The buffer finalizeSendSentence leaves for the C string `q` + "*":
      the checksum digits, CR, LF and NUL appended, anything after kept. */
  function Framed(q: Bytes, rest: Bytes): Bytes
    requires |q| >= 2
  {
    q + [STAR] + CrcTail(XorRange(q, 1, |q|)) + [NUL] + rest
  }

  /** The checksum of a buffer that holds `q` + "*" is the XOR of `q`
      from index 1 on, whatever follows the '*'. */
  lemma CrcOfPayload(q: Bytes, rest: Bytes)
    requires StarFreePayload(q)
    ensures CrcDefined(q + [STAR] + rest)
    ensures Crc(q + [STAR] + rest) == XorRange(q, 1, |q|)
  {
    var s := q + [STAR] + rest;
    assert s[|q|] == STAR;
    assert FirstFrom(s, 2, STAR) == |q| by {
      assert forall j :: 2 <= j < |q| ==> s[j] == q[j];
    }
    assert s[..|q|] == q;
    XorRangeSameBytes(s, q, 1, |q|);
  }

  /** The bytes of a framed sentence, region by region. */
  lemma FramedBytes(q: Bytes, rest: Bytes)
    requires |q| >= 2
    ensures var s, n, tail := Framed(q, rest), |q|, CrcTail(XorRange(q, 1, |q|));
      |s| == n + 6 + |rest| && s[n] == STAR && s[n + 5] == NUL &&
      (forall j :: 0 <= j < n ==> s[j] == q[j]) &&
      (forall j :: n + 1 <= j < n + 5 ==> s[j] == tail[j - n - 1]) &&
      (forall j :: n + 5 < j < |s| ==> s[j] == rest[j - n - 6])
  {
    var s, n, tail := Framed(q, rest), |q|, CrcTail(XorRange(q, 1, |q|));
    var a := q + [STAR] + tail;
    assert s == a + ([NUL] + rest);
    assert forall j :: 0 <= j < n ==> a[j] == q[j];
    assert forall j :: n + 1 <= j < n + 5 ==> a[j] == tail[j - n - 1];
  }

  /** The first `c` at or after `from` is at `k` when `s[k]` is `c` and
      nothing between is. */
  lemma FirstFromIs(s: Bytes, from: nat, c: byte, k: nat)
    requires from <= k < |s| && s[k] == c
    requires forall j :: from <= j < k ==> s[j] != c
    ensures OccursFrom(s, from, c) && FirstFrom(s, from, c) == k
  {
    assert OccursFrom(s, from, c);
    var f := FirstFrom(s, from, c);
    assert !(f < k) && !(k < f);
  }

  /** The terminator of a framed sentence follows its CR LF. */
  lemma FramedTerminator(q: Bytes, rest: Bytes)
    requires WellFormedPayload(q)
    ensures OccursFrom(Framed(q, rest), 1, NUL) && FirstFrom(Framed(q, rest), 1, NUL) == |q| + 5
  {
    var s, n, tail := Framed(q, rest), |q|, CrcTail(XorRange(q, 1, |q|));
    FramedBytes(q, rest);
    CrcTailHasNoNul(XorRange(q, 1, |q|));
    forall j | 1 <= j < n + 5 ensures s[j] != NUL {
      if n < j { assert s[j] == tail[j - n - 1]; }
    }
    FirstFromIs(s, 1, NUL, n + 5);
  }

  /** The only '*' of a framed sentence before its terminator is the one
      after `q`, and the digits after it are its checksum. */
  lemma FramedStarsMatch(q: Bytes, rest: Bytes)
    requires WellFormedPayload(q)
    ensures CrcDefined(Framed(q, rest))
    ensures StarsMatch(Framed(q, rest), 1, |q| + 5, Crc(Framed(q, rest)))
  {
    var s, n, crc := Framed(q, rest), |q|, XorRange(q, 1, |q|);
    var tail := CrcTail(crc);
    FramedBytes(q, rest);
    assert s == q + [STAR] + (tail + [NUL] + rest);
    CrcOfPayload(q, tail + [NUL] + rest);
    CrcTailHasNoSep(crc);
    assert forall j :: 1 <= j < n + 5 && s[j] == STAR ==> j == n;
    assert HexPair(s[n + 1], s[n + 2]) == crc;
  }

  /** No ',' of a framed sentence is followed directly by a separator. */
  lemma FramedSpaced(q: Bytes, rest: Bytes)
    requires WellFormedPayload(q)
    ensures SeparatorsSpaced(Framed(q, rest), 1, |q| + 5)
  {
    var s, n, tail := Framed(q, rest), |q|, CrcTail(XorRange(q, 1, |q|));
    FramedBytes(q, rest);
    CrcTailHasNoSep(XorRange(q, 1, |q|));
    assert forall j :: 2 <= j < n + 5 && IsSep(s[j]) ==> s[j - 1] != COMMA;
  }

  /** A framed sentence meets every condition under which splitFields
      accepts, with the terminator right after the CR LF. */
  lemma FramedSentenceSplits(q: Bytes, rest: Bytes)
    requires WellFormedPayload(q)
    ensures var s := Framed(q, rest);
      CrcDefined(s) && OccursFrom(s, 1, NUL) && FirstFrom(s, 1, NUL) == |q| + 5 &&
      StarsMatch(s, 1, |q| + 5, Crc(s)) && SeparatorsSpaced(s, 1, |q| + 5)
  {
    FramedTerminator(q, rest);
    FramedStarsMatch(q, rest);
    FramedSpaced(q, rest);
  }

  /** The separators of a framed sentence: those of `q`, then its '*'. */
  lemma FramedSeps(q: Bytes, rest: Bytes)
    requires WellFormedPayload(q)
    ensures Seps(Framed(q, rest), 1, |q| + 5) == Seps(q, 1, |q|) + [|q|]
  {
    var s, n := Framed(q, rest), |q|;
    var hi := n + 5;
    FramedBytes(q, rest);
    SepsAppend(s, 1, n, hi);
    SepsSameBytes(s, q, 1, n);
    FramedTailSeps(q, rest, s, n, hi);
    var a, b, c := Seps(s, 1, hi), Seps(s, 1, n), Seps(s, n, hi);
    assert a == b + c;
    assert b == Seps(q, 1, n);
    assert c == [n];
  }

  /** The checksum digits, CR and LF are neither ',' nor '*'. */
  lemma CrcTailHasNoSep(crc: byte)
    ensures forall d :: 0 <= d < 4 ==> !IsSep(CrcTail(crc)[d])
  {
    var tail := CrcTail(crc);
    assert !IsSep(tail[0]) && !IsSep(tail[1]);
  }

  /** From the '*' to the terminator the only separator is the '*'. */
  lemma FramedTailSeps(q: Bytes, rest: Bytes, s: Bytes, n: nat, hi: nat)
    requires |q| >= 2 && s == Framed(q, rest) && n == |q| && hi == n + 5
    ensures hi <= |s| && Seps(s, n, hi) == [n]
  {
    var tail := CrcTail(XorRange(q, 1, |q|));
    FramedBytes(q, rest);
    CrcTailHasNoSep(XorRange(q, 1, |q|));
    OnlySep(s, n, hi);
  }


  /** Accepting a framed sentence overwrites its one '*' and nothing else. */
  lemma FramedCleared(q: Bytes, rest: Bytes)
    requires WellFormedPayload(q)
    ensures ClearStars(Framed(q, rest), 1, |q| + 5) == q + [NUL] + CrcTail(XorRange(q, 1, |q|)) + [NUL] + rest
  {
    var s, n, tail := Framed(q, rest), |q|, CrcTail(XorRange(q, 1, |q|));
    var c, e := ClearStars(s, 1, n + 5), q + [NUL] + tail + [NUL] + rest;
    FramedBytes(q, rest);
    forall j | 0 <= j < |s| ensures c[j] == e[j] {
      if j < n {
      } else if j == n {
      } else if j < n + 5 {
        assert s[j] == tail[j - n - 1];
      } else {
      }
    }
  }

  /** What finalizeSendSentence writes, splitFields accepts: the sentence
      `q` + "*hh\r\n" splits into one field per ',' of `q` plus one for the
      '*', and only that '*' is overwritten. */
  lemma FramedSentenceAccepted(q: Bytes, rest: Bytes)
    requires WellFormedPayload(q)
    ensures var r := SplitSpec(Framed(q, rest));
      r.Split? && r.count > 0 &&
      r.count == |Seps(q, 1, |q|)| + 1 &&
      r.buffer == q + [NUL] + CrcTail(XorRange(q, 1, |q|)) + [NUL] + rest
  {
    var s, t := Framed(q, rest), |q| + 5;
    FramedSentenceSplits(q, rest);
    SplitAccepts(s);
    FramedSeps(q, rest);
    FramedCleared(q, rest);
  }

  /** The buffer finalizeSendSentence leaves for the C string `q` + "*"
      (its postcondition in `Serial.FinalizeSendSentence`) is `Framed`. */
  lemma FinalizeIsFramed(q: Bytes, junk: Bytes)
    requires StarFreePayload(q) && q[0] != NUL && |junk| >= 4
    ensures var s := q + [STAR] + [NUL] + junk;
      CrcDefined(s) && OccursFrom(s, 0, NUL) && Strlen(s) == |q| + 1 &&
      s[..Strlen(s)] + CrcTail(Crc(s)) + [NUL] + s[Strlen(s) + 5..] == Framed(q, s[|q| + 6..])
  {
    var s := q + [STAR] + [NUL] + junk;
    assert s == q + [STAR] + ([NUL] + junk);
    CrcOfPayload(q, [NUL] + junk);
    FirstFromIs(s, 0, NUL, |q| + 1);
    assert s[..|q| + 1] == q + [STAR];
  }

  /** Encode then decode: whatever finalizeSendSentence writes for a well
      formed text, splitFields accepts with one field per ',' of the text
      plus one for the '*'. */
  lemma FinalizedSentenceAccepted(q: Bytes, junk: Bytes)
    requires WellFormedPayload(q) && q[0] != NUL && |junk| >= 4
    ensures var s := q + [STAR] + [NUL] + junk;
      CrcDefined(s) && OccursFrom(s, 0, NUL) && Strlen(s) + 5 <= |s| &&
      var r := SplitSpec(s[..Strlen(s)] + CrcTail(Crc(s)) + [NUL] + s[Strlen(s) + 5..]);
      r.Split? && r.count == |Seps(q, 1, |q|)| + 1 &&
      r.buffer == q + [NUL] + CrcTail(XorRange(q, 1, |q|)) + [NUL] + junk[4..]
  {
    var s := q + [STAR] + [NUL] + junk;
    FinalizeIsFramed(q, junk);
    assert s[|q| + 6..] == junk[4..];
    FramedSentenceAccepted(q, junk[4..]);
  }

  /** Changing any one byte of the payload after the leading one (to a
      byte that is not '*' or NUL and keeps the payload well formed) makes
      splitFields return 0 and leave the buffer exactly as received. */
  lemma CorruptedSentenceRejected(q: Bytes, rest: Bytes, j: nat, x: byte)
    requires WellFormedPayload(q) && 1 <= j < |q| && x != q[j]
    requires WellFormedPayload(q[j := x])
    ensures var s := Framed(q, rest)[j := x];
      var r := SplitSpec(s);
      r.Split? && r.count == 0 && r.buffer == s
  {
    var n, q', s := |q|, q[j := x], Framed(q, rest)[j := x];
    CorruptedBytes(q, rest, j, x, s);
    XorRangeUpdate(q, 1, n, j, x);
    assert Crc(s) != XorRange(q, 1, n);
    SplitRejects(s, n);
  }

  /** The bytes of a framed sentence with one payload byte changed: the
      payload is the changed one, the digits still carry the old checksum. */
  lemma CorruptedBytes(q: Bytes, rest: Bytes, j: nat, x: byte, s: Bytes)
    requires WellFormedPayload(q) && 1 <= j < |q| && WellFormedPayload(q[j := x])
    requires s == Framed(q, rest)[j := x]
    ensures |q| + 2 < |s| && s[|q|] == STAR
    ensures HexPair(s[|q| + 1], s[|q| + 2]) == XorRange(q, 1, |q|)
    ensures forall k :: 1 <= k < |q| ==> s[k] == q[j := x][k]
    ensures CrcDefined(s) && Crc(s) == XorRange(q[j := x], 1, |q|)
  {
    var tail := CrcTail(XorRange(q, 1, |q|));
    assert s == q[j := x] + [STAR] + (tail + [NUL] + rest);
    CrcOfPayload(q[j := x], tail + [NUL] + rest);
    assert s[|q| + 1] == tail[0] && s[|q| + 2] == tail[1];
  }


  // ---------------------------------------------------------------------
  // parseCtlUnitData
  // ---------------------------------------------------------------------

  /** A buffer whose first '*' carries the wrong checksum never changes the
      requested bearing, elevation or focus. */
  lemma MismatchIsInert(s: Bytes, m: nat)
    requires CrcDefined(s)
    requires 1 <= m && m + 2 < |s| && s[m] == STAR && HexPair(s[m + 1], s[m + 2]) != Crc(s)
    requires NoNulIn(s, 1, m) && StarsMatch(s, 1, m, Crc(s)) && SeparatorsSpaced(s, 1, m + 1)
    ensures ParseDefined(SplitSpec(s)) && !CommandApplies(SplitSpec(s))
  {
    SplitRejects(s, m);
  }

  /** Whenever parseCtlUnitData sees more than 4 fields it can index the
      first four: its only undefined read is an empty field 0. */
  lemma ParseDefinedIffFirstFieldNonEmpty(s: Bytes)
    requires SplitSpec(s).Split?
    ensures var r := SplitSpec(s);
      (r.count > 4 ==> |r.fields| > 3) &&
      (ParseDefined(r) <==> (r.count > 4 ==> |r.fields[0]| > 0))
  {
    SplitCount(s);
  }
}
