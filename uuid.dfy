/** UUID generation (tools/UuidGenerator.tsx): version 1 from the clock, a clock sequence
    and a random node id (RFC 9562, section 5.1), version 7 from Unix milliseconds and random
    bytes (RFC 9562, section 5.7), version 4 as whatever `crypto.randomUUID` returns, and the
    batch `generate` with its hyphen and upper-case options.

    The source masks and combines fields with `&`, `|`, `>>` and `>>>` on non-negative values
    whose bits never overlap; those are written here as `%`, `+` and `/` by powers of two. */
module Uuid {
  import opened JsStrings
  import opened JsNumbers
  import Timestamps

  const Hyphen: CodeUnit := '-' as int

  // ----- the 8-4-4-4-12 layout -----

  predicate IsHyphenAt(i: int) { i == 8 || i == 13 || i == 18 || i == 23 }

  /** 36 characters: hyphens at 8, 13, 18 and 23, lower-case hex digits everywhere else. */
  predicate HasLayout(s: JsString)
  {
    |s| == 36 && forall i :: 0 <= i < 36 ==> if IsHyphenAt(i) then s[i] == Hyphen else IsLowerHex(s[i])
  }

  predicate AllLowerHex(s: JsString)
  {
    forall i :: 0 <= i < |s| ==> IsLowerHex(s[i])
  }

  /** The template literal `${a}-${b}-${c}-${d}-${e}`. */
  function Groups(a: JsString, b: JsString, c: JsString, d: JsString, e: JsString): JsString
  {
    a + [Hyphen] + b + [Hyphen] + c + [Hyphen] + d + [Hyphen] + e
  }

  lemma GroupsLayout(a: JsString, b: JsString, c: JsString, d: JsString, e: JsString)
    requires |a| == 8 && |b| == 4 && |c| == 4 && |d| == 4 && |e| == 12
    requires AllLowerHex(a) && AllLowerHex(b) && AllLowerHex(c) && AllLowerHex(d) && AllLowerHex(e)
    ensures HasLayout(Groups(a, b, c, d, e))
    ensures Groups(a, b, c, d, e)[14] == c[0] && Groups(a, b, c, d, e)[19] == d[0]
    ensures Groups(a, b, c, d, e)[..8] == a && Groups(a, b, c, d, e)[9..13] == b
    ensures Groups(a, b, c, d, e)[14..18] == c && Groups(a, b, c, d, e)[19..23] == d
  {
    var s := Groups(a, b, c, d, e);
    assert s == a + ([Hyphen] + b) + ([Hyphen] + c) + ([Hyphen] + d) + ([Hyphen] + e);
    forall i | 0 <= i < 36
      ensures if IsHyphenAt(i) then s[i] == Hyphen else IsLowerHex(s[i])
    {
      if i < 8 { assert s[i] == a[i]; }
      else if 8 < i < 13 { assert s[i] == b[i - 9]; }
      else if 13 < i < 18 { assert s[i] == c[i - 14]; }
      else if 18 < i < 23 { assert s[i] == d[i - 19]; }
      else if 23 < i { assert s[i] == e[i - 24]; }
    }
  }

  /** The first thirteen characters hold the first two groups around one hyphen. */
  lemma GroupsPrefix(a: JsString, b: JsString, c: JsString, d: JsString, e: JsString, k: int)
    requires |a| == 8 && |b| == 4 && 0 <= k < 13
    ensures Groups(a, b, c, d, e)[k] == if k < 8 then (a + b)[k] else if k == 8 then Hyphen else (a + b)[k - 1]
  {
    var s := Groups(a, b, c, d, e);
    assert s == a + ([Hyphen] + b) + ([Hyphen] + c + [Hyphen] + d + [Hyphen] + e);
  }

  /** `Array.from(bytes).map(b => b.toString(16).padStart(2, '0')).join('')`. */
  function HexBytes(bs: seq<Byte>): (h: JsString)
    ensures |h| >= 2 * |bs|
  {
    if bs == [] then [] else PaddedHex(bs[0], 2) + HexBytes(bs[1..])
  }

  /** Each byte takes exactly two lower-case hex digits. */
  lemma {:induction false} HexBytesShape(bs: seq<Byte>)
    ensures |HexBytes(bs)| == 2 * |bs| && AllLowerHex(HexBytes(bs))
  {
    if bs != [] {
      assert Power(16, 2) == 0x100;
      PaddedHexIsFixed(bs[0], 2);
      FixedHexChars(bs[0], 2);
      HexBytesShape(bs[1..]);
      var h, t := PaddedHex(bs[0], 2), HexBytes(bs[1..]);
      assert forall i :: 0 <= i < |h + t| ==> (h + t)[i] == if i < 2 then h[i] else t[i - 2];
    }
  }

  /** A hex field of width `w` for a value below 16^w. */
  lemma HexField(n: nat, w: nat)
    requires w >= 1 && n < Power(16, w)
    ensures PaddedHex(n, w) == FixedHex(n, w) && |PaddedHex(n, w)| == w && AllLowerHex(PaddedHex(n, w))
  {
    PaddedHexIsFixed(n, w);
    FixedHexChars(n, w);
  }

  lemma FixedHexLead4(n: nat)
    requires n < 0x1_0000
    ensures FixedHex(n, 4)[0] == DigitChar(n / 0x1000)
  {
    var a := n / 16;
    var b := a / 16;
    assert FixedHex(n, 4)[0] == FixedHex(a, 3)[0] == FixedHex(b, 2)[0] == FixedHex(b / 16, 1)[0];
    assert b / 16 == n / 0x1000;
  }

  lemma FixedHexLead2(n: nat)
    requires n < 0x100
    ensures FixedHex(n, 2)[0] == DigitChar(n / 16)
  {
    assert FixedHex(n, 2)[0] == FixedHex(n / 16, 1)[0];
  }

  // ----- version 1 -----

  /** Milliseconds from the start of the Gregorian calendar, 1582-10-15, to 1970-01-01. */
  const GregorianOffset: nat := 12_219_292_800_000

  /** The offset is the time value of midnight, 15 October 1582 (proleptic Gregorian, UTC). */
  lemma GregorianEpoch()
    ensures Timestamps.MakeDate(Timestamps.DateFields(1582, 10, 15, 0, 0, 0, 0)) == -(GregorianOffset as int)
  {
  }

  /** The version-1 timestamp: 100-nanosecond ticks since 1582-10-15. */
  function GregorianTime(msecs: nat, nsecs: nat): nat
  {
    (msecs + GregorianOffset) * 10_000 + nsecs
  }

  /** The module-level `_clockSeq`, `_lastMSecs` and `_lastNSecs`. */
  datatype ClockState = ClockState(clockSeq: nat, lastMSecs: nat, lastNSecs: nat)

  /** The clock update at the start of `generateV1` for the time `msecs`: `nsecs` restarts at
      0 when the clock moved forward by less than 10 seconds and otherwise counts on; the
      clock sequence is incremented, within 14 bits, when the clock went backwards. */
  function Tick(c: ClockState, msecs: nat): (c': ClockState)
    ensures c'.lastMSecs == msecs
  {
    var nsecs := c.lastNSecs + 1;
    var dt := msecs - c.lastMSecs;
    if 0 < dt < 10_000 then ClockState(c.clockSeq, msecs, 0)
    else if dt < 0 then ClockState((c.clockSeq + 1) % 0x4000, msecs, nsecs)
    else ClockState(c.clockSeq, msecs, nsecs)
  }

  /** The clock sequence stays within 14 bits. */
  lemma TickKeepsSequence(c: ClockState, msecs: nat)
    requires c.clockSeq < 0x4000
    ensures Tick(c, msecs).clockSeq < 0x4000
  {
  }

  /** When the clock did not go backwards, the timestamp of the new id is later than that of
      the previous one, as long as fewer than 10000 ids were made in the previous millisecond. */
  lemma TickAdvances(c: ClockState, msecs: nat)
    requires c.lastMSecs <= msecs && c.lastNSecs < 10_000
    ensures GregorianTime(c.lastMSecs, c.lastNSecs) < GregorianTime(msecs, Tick(c, msecs).lastNSecs)
    ensures Tick(c, msecs).clockSeq == c.clockSeq
  {
  }

  /** When the clock went backwards, the clock sequence changes, so the id differs from the
      earlier one with the same timestamp. */
  lemma TickBackwards(c: ClockState, msecs: nat)
    requires msecs < c.lastMSecs && c.clockSeq < 0x4000
    ensures Tick(c, msecs).clockSeq != c.clockSeq
    ensures Tick(c, msecs).lastNSecs == c.lastNSecs + 1
  {
  }

  /** `generateV1`'s string for the timestamp parts, the clock sequence and the node id. */
  function V1Id(msecs: nat, nsecs: nat, clockSeq: nat, node: seq<Byte>): JsString
  {
    var time := GregorianTime(msecs, nsecs);
    var timeLow := time % 0x1_0000_0000;
    var timeMid := time / 0x1_0000_0000 % 0x1_0000;
    var timeHiAndVersion := time / 0x1_0000_0000_0000 % 0x1000 + 0x1000;
    var clockSeqHiAndReserved := clockSeq / 0x100 + 0x80;
    var clockSeqLow := clockSeq % 0x100;
    Groups(PaddedHex(timeLow, 8), PaddedHex(timeMid, 4), PaddedHex(timeHiAndVersion, 4),
           NatToString(clockSeqHiAndReserved, 16) + PaddedHex(clockSeqLow, 2), HexBytes(node))
  }

  /** A version-1 id has the 8-4-4-4-12 layout, the version digit `1` at index 14 and the
      variant bits 10 at index 19. */
  lemma V1Layout(msecs: nat, nsecs: nat, clockSeq: nat, node: seq<Byte>)
    requires clockSeq < 0x4000 && |node| == 6
    ensures HasLayout(V1Id(msecs, nsecs, clockSeq, node))
    ensures V1Id(msecs, nsecs, clockSeq, node)[14] == '1' as int
    ensures V1Id(msecs, nsecs, clockSeq, node)[19] in {'8' as int, '9' as int, 'a' as int, 'b' as int}
  {
    var time := GregorianTime(msecs, nsecs);
    var a, b := PaddedHex(time % 0x1_0000_0000, 8), PaddedHex(time / 0x1_0000_0000 % 0x1_0000, 4);
    var c := PaddedHex(time / 0x1_0000_0000_0000 % 0x1000 + 0x1000, 4);
    var d := NatToString(clockSeq / 0x100 + 0x80, 16) + PaddedHex(clockSeq % 0x100, 2);
    var e := HexBytes(node);
    assert V1Id(msecs, nsecs, clockSeq, node) == Groups(a, b, c, d, e);
    TimeFields(time);
    ClockField(clockSeq);
    HexBytesShape(node);
    GroupsLayout(a, b, c, d, e);
  }

  /** The three time fields of a version-1 id: zero-padded hex of their widths, the last
      one led by the version digit. */
  lemma TimeFields(time: nat)
    ensures var hi := time / 0x1_0000_0000_0000 % 0x1000 + 0x1000;
            |PaddedHex(time % 0x1_0000_0000, 8)| == 8 && AllLowerHex(PaddedHex(time % 0x1_0000_0000, 8)) &&
            |PaddedHex(time / 0x1_0000_0000 % 0x1_0000, 4)| == 4 && AllLowerHex(PaddedHex(time / 0x1_0000_0000 % 0x1_0000, 4)) &&
            |PaddedHex(hi, 4)| == 4 && AllLowerHex(PaddedHex(hi, 4)) && PaddedHex(hi, 4)[0] == '1' as int
  {
    assert Power(16, 8) == 0x1_0000_0000 && Power(16, 4) == 0x1_0000;
    HexField(time % 0x1_0000_0000, 8);
    HexField(time / 0x1_0000_0000 % 0x1_0000, 4);
    var hi := time / 0x1_0000_0000_0000 % 0x1000 + 0x1000;
    HexField(hi, 4);
    FixedHexLead4(hi);
  }

  /** The clock-sequence field: the high byte with the variant bits, then the low byte. */
  lemma ClockField(clockSeq: nat)
    requires clockSeq < 0x4000
    ensures var d := NatToString(clockSeq / 0x100 + 0x80, 16) + PaddedHex(clockSeq % 0x100, 2);
            |d| == 4 && AllLowerHex(d) && d[0] in {'8' as int, '9' as int, 'a' as int, 'b' as int}
  {
    assert Power(16, 2) == 0x100;
    var seqHi := clockSeq / 0x100 + 0x80;
    HexField(seqHi, 2);
    FixedHexLead2(seqHi);
    assert NatToString(seqHi, 16) == PaddedHex(seqHi, 2) by {
      assert NatToString(seqHi, 16) == NatToString(seqHi / 16, 16) + [DigitChar(seqHi % 16)];
    }
    HexField(clockSeq % 0x100, 2);
    var d := PaddedHex(seqHi, 2) + PaddedHex(clockSeq % 0x100, 2);
    assert forall i :: 0 <= i < 4 ==> d[i] == if i < 2 then PaddedHex(seqHi, 2)[i] else PaddedHex(clockSeq % 0x100, 2)[i - 2];
  }

  /** `nodeId[0] |= 0x01`: the multicast bit of the first byte is set, the other bits kept. */
  function WithMulticast(node: seq<Byte>): (r: seq<Byte>)
    requires |node| == 6
    ensures |r| == 6 && r[0] % 2 == 1 && r[0] / 2 == node[0] / 2 && r[1..] == node[1..]
  {
    [if node[0] % 2 == 1 then node[0] else node[0] + 1] + node[1..]
  }

  /** The module-level state of `generateV1`: the session's node id and the clock. */
  class V1Clock {
    var nodeId: seq<Byte>
    var clockSeq: nat
    var lastMSecs: nat
    var lastNSecs: nat

    predicate Valid()
      reads this
    {
      |nodeId| == 6 && nodeId[0] % 2 == 1 && clockSeq < 0x4000
    }

    function State(): ClockState
      reads this
    {
      ClockState(clockSeq, lastMSecs, lastNSecs)
    }

    /** The module initialisation, from the six random node bytes and the initial clock
        sequence `Math.floor(Math.random() * 0x3fff)`. */
    constructor(randomNode: seq<Byte>, initialSeq: nat)
      requires |randomNode| == 6 && initialSeq < 0x3fff
      ensures Valid() && nodeId == WithMulticast(randomNode)
      ensures State() == ClockState(initialSeq, 0, 0)
    {
      nodeId := WithMulticast(randomNode);
      clockSeq := initialSeq;
      lastMSecs := 0;
      lastNSecs := 0;
    }

    /** `generateV1()` with `Date.now()` returning `msecs`. */
    method Generate(msecs: nat) returns (id: JsString)
      requires Valid()
      modifies this
      ensures Valid() && nodeId == old(nodeId)
      ensures State() == Tick(old(State()), msecs)
      ensures id == V1Id(msecs, lastNSecs, clockSeq, nodeId)
    {
      var nsecs := lastNSecs + 1;
      var dt := msecs - lastMSecs;
      if 0 < dt < 10_000 {
        nsecs := 0;
      } else if dt < 0 {
        clockSeq := (clockSeq + 1) % 0x4000;
      }
      lastMSecs := msecs;
      lastNSecs := nsecs;
      id := V1Id(msecs, nsecs, clockSeq, nodeId);
    }
  }

  /** The clock after `generateV1` was called at the times `nows`, in order. */
  function V1Final(c: ClockState, nows: seq<nat>): ClockState
  {
    if nows == [] then c else Tick(V1Final(c, nows[..|nows| - 1]), nows[|nows| - 1])
  }

  /** The ids `generateV1` returns when called at the times `nows`, in order. */
  function V1Run(c: ClockState, node: seq<Byte>, nows: seq<nat>): (ids: seq<JsString>)
    ensures |ids| == |nows|
  {
    if nows == [] then []
    else
      var c' := V1Final(c, nows);
      V1Run(c, node, nows[..|nows| - 1]) + [V1Id(nows[|nows| - 1], c'.lastNSecs, c'.clockSeq, node)]
  }

  /** One more call extends the run by the id of that call. */
  lemma V1RunStep(c: ClockState, node: seq<Byte>, nows: seq<nat>, i: nat)
    requires i < |nows|
    ensures V1Final(c, nows[..i + 1]) == Tick(V1Final(c, nows[..i]), nows[i])
    ensures var c' := V1Final(c, nows[..i + 1]);
            V1Run(c, node, nows[..i + 1]) == V1Run(c, node, nows[..i]) + [V1Id(nows[i], c'.lastNSecs, c'.clockSeq, node)]
  {
    assert nows[..i + 1][..i] == nows[..i];
  }

  /** Every id of a run has the version-1 layout. */
  lemma {:induction false} V1RunLayout(c: ClockState, node: seq<Byte>, nows: seq<nat>)
    requires c.clockSeq < 0x4000 && |node| == 6
    ensures V1Final(c, nows).clockSeq < 0x4000
    ensures forall i :: 0 <= i < |nows| ==> HasLayout(V1Run(c, node, nows)[i])
  {
    if nows != [] {
      var front := nows[..|nows| - 1];
      V1RunLayout(c, node, front);
      var c' := V1Final(c, nows);
      TickKeepsSequence(V1Final(c, front), nows[|nows| - 1]);
      V1Layout(nows[|nows| - 1], c'.lastNSecs, c'.clockSeq, node);
    }
  }

  // ----- version 7 -----

  /** `0x7000 | ((rand[0] << 8) | rand[1]) & 0x0fff`: the version 7 over twelve random bits. */
  function VersionField(r0: Byte, r1: Byte): nat
  {
    0x7000 + ((r0 as int) * 0x100 + r1 as int) % 0x1000
  }

  /** `(rand[2] & 0x3f) | 0x80`: the variant bits 10 over six random bits. */
  function VariantByte(r2: Byte): nat
  {
    (r2 as int) % 0x40 + 0x80
  }

  /** `generateV7`'s string for the time `msecs` and the ten random bytes. */
  function V7Id(msecs: nat, rand: seq<Byte>): JsString
    requires |rand| == 10
  {
    var tsHex := PaddedHex(msecs, 12);
    var verRandA := PaddedHex(VersionField(rand[0], rand[1]), 4);
    var varHex := PaddedHex(VariantByte(rand[2]), 2);
    var restHex := HexBytes(rand[3..]);
    Groups(tsHex[..8], tsHex[8..], verRandA, varHex + restHex[..2], restHex[2..])
  }

  /** How `generateV7` cuts its fields into the five groups. */
  lemma V7Assembly(ts: JsString, ver: JsString, va: JsString, rest: JsString)
    requires |ts| == 12 && |ver| == 4 && |va| == 2 && |rest| == 14
    requires AllLowerHex(ts) && AllLowerHex(ver) && AllLowerHex(va) && AllLowerHex(rest)
    ensures var s := Groups(ts[..8], ts[8..], ver, va + rest[..2], rest[2..]);
            HasLayout(s) && s[14] == ver[0] && s[19] == va[0] && s[..8] + s[9..13] == ts
  {
    var d := va + rest[..2];
    assert forall i :: 0 <= i < 4 ==> d[i] == if i < 2 then va[i] else rest[i - 2];
    GroupsLayout(ts[..8], ts[8..], ver, d, rest[2..]);
    assert ts[..8] + ts[8..] == ts;
  }

  /** The fields of a version-7 id: zero-padded hex of their widths, the version digit 7 and
      a variant digit 8 to b. */
  lemma V7Parts(msecs: nat, rand: seq<Byte>)
    requires msecs < 0x1_0000_0000_0000 && |rand| == 10
    ensures |PaddedHex(msecs, 12)| == 12 && AllLowerHex(PaddedHex(msecs, 12))
    ensures AllDigitsIn(PaddedHex(msecs, 12), 16) && DigitsValue(PaddedHex(msecs, 12), 16) == msecs
    ensures var ver := PaddedHex(VersionField(rand[0], rand[1]), 4);
            |ver| == 4 && AllLowerHex(ver) && ver[0] == '7' as int
    ensures var va := PaddedHex(VariantByte(rand[2]), 2);
            |va| == 2 && AllLowerHex(va) && va[0] in {'8' as int, '9' as int, 'a' as int, 'b' as int}
    ensures |HexBytes(rand[3..])| == 14 && AllLowerHex(HexBytes(rand[3..]))
  {
    assert Power(16, 12) == 0x1_0000_0000_0000 && Power(16, 4) == 0x1_0000 && Power(16, 2) == 0x100;
    HexField(msecs, 12);
    FixedHexValue(msecs, 12);
    HexField(VersionField(rand[0], rand[1]), 4);
    FixedHexLead4(VersionField(rand[0], rand[1]));
    HexField(VariantByte(rand[2]), 2);
    FixedHexLead2(VariantByte(rand[2]));
    HexBytesShape(rand[3..]);
  }

  /** For a time below 2^48 a version-7 id has the 8-4-4-4-12 layout, its first twelve hex
      digits are the time, the version digit is `7` and the variant bits are 10. */
  lemma V7Layout(msecs: nat, rand: seq<Byte>)
    requires msecs < 0x1_0000_0000_0000 && |rand| == 10
    ensures HasLayout(V7Id(msecs, rand))
    ensures V7Id(msecs, rand)[14] == '7' as int
    ensures V7Id(msecs, rand)[19] in {'8' as int, '9' as int, 'a' as int, 'b' as int}
    ensures AllDigitsIn(V7Id(msecs, rand)[..8] + V7Id(msecs, rand)[9..13], 16)
    ensures DigitsValue(V7Id(msecs, rand)[..8] + V7Id(msecs, rand)[9..13], 16) == msecs
  {
    V7Parts(msecs, rand);
    V7Assembly(PaddedHex(msecs, 12), PaddedHex(VersionField(rand[0], rand[1]), 4),
               PaddedHex(VariantByte(rand[2]), 2), HexBytes(rand[3..]));
  }

  /** Version-7 ids sort by their time, whatever the random bytes: the ids of an earlier
      millisecond are smaller strings. */
  lemma V7Order(m: nat, n: nat, r: seq<Byte>, s: seq<Byte>)
    requires m < n < 0x1_0000_0000_0000 && |r| == 10 && |s| == 10
    ensures Less(V7Id(m, r), V7Id(n, s))
  {
    assert Power(16, 12) == 0x1_0000_0000_0000;
    HexField(m, 12);
    HexField(n, 12);
    FixedHexOrder(m, n, 12);
    var a, b := PaddedHex(m, 12), PaddedHex(n, 12);
    var i :| LessAt(a, b, i);
    var x, y := V7Id(m, r), V7Id(n, s);
    V7Prefix(m, r);
    V7Prefix(n, s);
    var j := if i < 8 then i else i + 1;
    OrderThroughHyphen(a, b, x, y, i);
    assert LessAt(x, y, j);
  }

  /** A first difference in the 12-digit time field is a first difference of the ids, one
      place later past the hyphen. */
  lemma OrderThroughHyphen(a: JsString, b: JsString, x: JsString, y: JsString, i: int)
    requires |a| == 12 && |b| == 12 && |x| == 36 && |y| == 36 && LessAt(a, b, i)
    requires forall k {:trigger x[k]} :: 0 <= k < 13 ==> x[k] == if k < 8 then a[k] else if k == 8 then Hyphen else a[k - 1]
    requires forall k {:trigger y[k]} :: 0 <= k < 13 ==> y[k] == if k < 8 then b[k] else if k == 8 then Hyphen else b[k - 1]
    ensures LessAt(x, y, if i < 8 then i else i + 1)
  {
    if i < 8 {
      forall k | 0 <= k < i ensures x[k] == y[k] { assert a[k] == b[k]; }
      assert x[i] == a[i] && y[i] == b[i];
    } else {
      forall k | 0 <= k < i + 1
        ensures x[k] == y[k]
      {
        if k < 8 { assert a[k] == b[k]; }
        else if k > 8 { assert a[k - 1] == b[k - 1]; }
      }
      assert x[i + 1] == a[i] && y[i + 1] == b[i];
    }
  }

  /** The first thirteen characters of a version-7 id are the time field around a hyphen. */
  lemma V7Prefix(msecs: nat, rand: seq<Byte>)
    requires msecs < 0x1_0000_0000_0000 && |rand| == 10
    ensures |V7Id(msecs, rand)| == 36
    ensures var ts := PaddedHex(msecs, 12);
            forall k {:trigger V7Id(msecs, rand)[k]} :: 0 <= k < 13 ==> V7Id(msecs, rand)[k] == if k < 8 then ts[k] else if k == 8 then Hyphen else ts[k - 1]
  {
    V7Parts(msecs, rand);
    var ts := PaddedHex(msecs, 12);
    V7Assembly(ts, PaddedHex(VersionField(rand[0], rand[1]), 4),
               PaddedHex(VariantByte(rand[2]), 2), HexBytes(rand[3..]));
    forall k | 0 <= k < 13
      ensures V7Id(msecs, rand)[k] == if k < 8 then ts[k] else if k == 8 then Hyphen else ts[k - 1]
    {
      GroupsPrefix(ts[..8], ts[8..], PaddedHex(VersionField(rand[0], rand[1]), 4),
                   PaddedHex(VariantByte(rand[2]), 2) + HexBytes(rand[3..])[..2], HexBytes(rand[3..])[2..], k);
      assert ts[..8] + ts[8..] == ts;
    }
  }

  // ----- the batch -----

  datatype Version = V1 | V4 | V7

  /** The ten bytes `generateV7` draws from `crypto.getRandomValues`. */
  type RandomBytes = r: seq<Byte> | |r| == 10 witness [0, 0, 0, 0, 0, 0, 0, 0, 0, 0]

  /** The per-id options of `generate`: hyphens stripped first, then upper case. */
  function PostProcess(uuid: JsString, noHyphens: bool, uppercase: bool): (r: JsString)
    ensures noHyphens ==> Hyphen !in r
    ensures uppercase ==> forall i :: 0 <= i < |r| ==> !IsLower(r[i])
    ensures !noHyphens && !uppercase ==> r == uuid
  {
    var u := if noHyphens then ReplaceAll(uuid, Hyphen, []) else uuid;
    if uppercase then UpperAscii(u) else u
  }

  /** The id the `i`-th call of the generator returns before post-processing, for the
      versions whose calls do not share state. */
  function Independent(version: Version, now: nat, rand: RandomBytes, v4: JsString): JsString
  {
    if version == V7 then V7Id(now, rand) else v4
  }

  /** `map` of the per-id options over a list of ids. */
  function PostAll(ids: seq<JsString>, noHyphens: bool, uppercase: bool): (r: seq<JsString>)
    ensures |r| == |ids|
  {
    if ids == [] then [] else PostAll(ids[..|ids| - 1], noHyphens, uppercase) + [PostProcess(ids[|ids| - 1], noHyphens, uppercase)]
  }

  /** Each listed id is its raw id post-processed. */
  lemma {:induction false} PostAllAt(ids: seq<JsString>, noHyphens: bool, uppercase: bool, i: nat)
    requires i < |ids|
    ensures PostAll(ids, noHyphens, uppercase)[i] == PostProcess(ids[i], noHyphens, uppercase)
    decreases |ids|
  {
    if i < |ids| - 1 {
      PostAllAt(ids[..|ids| - 1], noHyphens, uppercase, i);
    }
  }


  /** The raw ids of calls that do not share state, in order. */
  function IndependentRun(version: Version, nows: seq<nat>, rands: seq<RandomBytes>, v4s: seq<JsString>): (ids: seq<JsString>)
    requires |rands| == |nows| && |v4s| == |nows|
    ensures |ids| == |nows|
  {
    if nows == [] then []
    else
      var n := |nows| - 1;
      IndependentRun(version, nows[..n], rands[..n], v4s[..n]) + [Independent(version, nows[n], rands[n], v4s[n])]
  }

  /** The `i`-th raw id is the one the `i`-th call returns. */
  lemma {:induction false} IndependentRunAt(version: Version, nows: seq<nat>, rands: seq<RandomBytes>, v4s: seq<JsString>, i: nat)
    requires |rands| == |nows| && |v4s| == |nows|
    requires i < |nows|
    ensures IndependentRun(version, nows, rands, v4s)[i] == Independent(version, nows[i], rands[i], v4s[i])
    decreases |nows|
  {
    var n := |nows| - 1;
    var front := IndependentRun(version, nows[..n], rands[..n], v4s[..n]);
    var last := Independent(version, nows[n], rands[n], v4s[n]);
    assert IndependentRun(version, nows, rands, v4s) == front + [last];
    SnocAt(front, last, i);
    if i < n {
      IndependentRunAt(version, nows[..n], rands[..n], v4s[..n], i);
      assert nows[..n][i] == nows[i] && rands[..n][i] == rands[i] && v4s[..n][i] == v4s[i];
    }
  }

  lemma SnocAt(front: seq<JsString>, last: JsString, i: nat)
    requires i <= |front|
    ensures (front + [last])[i] == if i < |front| then front[i] else last
  {
  }

  lemma IndependentRunStep(version: Version, nows: seq<nat>, rands: seq<RandomBytes>, v4s: seq<JsString>, i: nat)
    requires |rands| == |nows| && |v4s| == |nows|
    requires i < |nows|
    ensures IndependentRun(version, nows[..i + 1], rands[..i + 1], v4s[..i + 1]) ==
            IndependentRun(version, nows[..i], rands[..i], v4s[..i]) + [Independent(version, nows[i], rands[i], v4s[i])]
  {
    assert nows[..i + 1][..i] == nows[..i] && rands[..i + 1][..i] == rands[..i] && v4s[..i + 1][..i] == v4s[..i];
  }

  lemma PostAllStep(ids: seq<JsString>, uuid: JsString, noHyphens: bool, uppercase: bool)
    ensures PostAll(ids + [uuid], noHyphens, uppercase) == PostAll(ids, noHyphens, uppercase) + [PostProcess(uuid, noHyphens, uppercase)]
  {
    assert (ids + [uuid])[..|ids|] == ids;
  }

  /** The raw ids of `generate` for the version: a run of the shared clock for version 1,
      independent calls otherwise. */
  function Expected(version: Version, c: ClockState, node: seq<Byte>, nows: seq<nat>, rands: seq<RandomBytes>, v4s: seq<JsString>): seq<JsString>
    requires |rands| == |nows| && |v4s| == |nows|
  {
    if version == V1 then V1Run(c, node, nows) else IndependentRun(version, nows, rands, v4s)
  }

  lemma ExpectedStep(version: Version, c: ClockState, node: seq<Byte>, nows: seq<nat>, rands: seq<RandomBytes>, v4s: seq<JsString>, i: nat)
    requires |rands| == |nows| && |v4s| == |nows|
    requires i < |nows|
    ensures V1Final(c, nows[..i + 1]) == Tick(V1Final(c, nows[..i]), nows[i])
    ensures var c' := V1Final(c, nows[..i + 1]);
            Expected(version, c, node, nows[..i + 1], rands[..i + 1], v4s[..i + 1]) ==
            Expected(version, c, node, nows[..i], rands[..i], v4s[..i]) +
            [if version == V1 then V1Id(nows[i], c'.lastNSecs, c'.clockSeq, node) else Independent(version, nows[i], rands[i], v4s[i])]
  {
    V1RunStep(c, node, nows, i);
    IndependentRunStep(version, nows, rands, v4s, i);
  }

  /** `fn()`: the generator chosen by the version. */
  method NextId(version: Version, clock: V1Clock, now: nat, rand: RandomBytes, v4: JsString) returns (uuid: JsString)
    requires clock.Valid()
    modifies clock
    ensures clock.Valid() && clock.nodeId == old(clock.nodeId)
    ensures clock.State() == if version == V1 then Tick(old(clock.State()), now) else old(clock.State())
    ensures uuid == if version == V1 then V1Id(now, clock.lastNSecs, clock.clockSeq, clock.nodeId)
                    else Independent(version, now, rand, v4)
  {
    if version == V1 {
      uuid := clock.Generate(now);
    } else if version == V7 {
      uuid := V7Id(now, rand);
    } else {
      uuid := v4;
    }
  }

  /** The component's settings and its list of ids. */
  class UuidGenerator {
    var version: Version
    var quantity: nat
    var uppercase: bool
    var noHyphens: bool
    var uuids: seq<JsString>

    constructor()
      ensures version == V4 && quantity == 5 && !uppercase && !noHyphens && uuids == []
    {
      version := V4;
      quantity := 5;
      uppercase := false;
      noHyphens := false;
      uuids := [];
    }

    /** The version buttons. A setter that changes a value makes a new `generate`, and the
        effect that depends on it runs `Generate` next, replacing the list. A setter that
        stores the value already held leaves `generate`, and so the list, as they were. */
    method SetVersion(v: Version)
      modifies this
      ensures version == v && quantity == old(quantity)
      ensures uppercase == old(uppercase) && noHyphens == old(noHyphens) && uuids == old(uuids)
    {
      version := v;
    }

    /** The quantity slider, which offers 1 to 50; `Generate` follows when the value changes. */
    method SetQuantity(q: nat)
      requires 1 <= q <= 50
      modifies this
      ensures quantity == q && version == old(version)
      ensures uppercase == old(uppercase) && noHyphens == old(noHyphens) && uuids == old(uuids)
    {
      quantity := q;
    }

    /** The upper-case checkbox; `Generate` follows when the value changes. */
    method SetUppercase(b: bool)
      modifies this
      ensures uppercase == b && version == old(version) && quantity == old(quantity)
      ensures noHyphens == old(noHyphens) && uuids == old(uuids)
    {
      uppercase := b;
    }

    /** The no-hyphens checkbox; `Generate` follows when the value changes. */
    method SetNoHyphens(b: bool)
      modifies this
      ensures noHyphens == b && version == old(version) && quantity == old(quantity)
      ensures uppercase == old(uppercase) && uuids == old(uuids)
    {
      noHyphens := b;
    }

    /** `generate()`, which also runs as the effect after a setter that changes a value. The `i`-th call of
        the generator sees `Date.now()` as `nows[i]`, the random bytes `rands[i]` and, for
        version 4, the result `v4s[i]` of `crypto.randomUUID()`; version 1 advances the
        shared `clock`. */
    method Generate(clock: V1Clock, nows: seq<nat>, rands: seq<RandomBytes>, v4s: seq<JsString>)
      requires clock.Valid()
      requires |nows| == quantity && |rands| == quantity && |v4s| == quantity
      modifies this, clock
      ensures version == old(version) && quantity == old(quantity)
      ensures uppercase == old(uppercase) && noHyphens == old(noHyphens)
      ensures clock.Valid() && clock.nodeId == old(clock.nodeId)
      ensures clock.State() == if version == V1 then V1Final(old(clock.State()), nows) else old(clock.State())
      ensures uuids == PostAll(Expected(version, old(clock.State()), clock.nodeId, nows, rands, v4s), noHyphens, uppercase)
    {
      var c0 := clock.State();
      var v, nh, up, node := version, noHyphens, uppercase, clock.nodeId;
      var result: seq<JsString> := [];
      var i := 0;
      while i < quantity
        invariant 0 <= i <= quantity
        modifies clock
        invariant clock.Valid() && clock.nodeId == node
        invariant clock.State() == if v == V1 then V1Final(c0, nows[..i]) else c0
        invariant result == PostAll(Expected(v, c0, node, nows[..i], rands[..i], v4s[..i]), nh, up)
      {
        var uuid := NextId(v, clock, nows[i], rands[i], v4s[i]);
        ExpectedStep(v, c0, node, nows, rands, v4s, i);
        PostAllStep(Expected(v, c0, node, nows[..i], rands[..i], v4s[..i]), uuid, nh, up);
        result := result + [PostProcess(uuid, nh, up)];
        i := i + 1;
      }
      assert nows[..quantity] == nows && rands[..quantity] == rands && v4s[..quantity] == v4s;
      uuids := result;
    }
  }
}
