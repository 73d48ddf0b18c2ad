/** Packets between the proxy and GameServer: building, checking, and reassembly from a stream.
    Words are little-endian, as both ends write and read them. */
module Framing {
  import opened Bytes

  const PACKET_SIZE := 60 * 1024
  const PROTO_VER := 0x000A
  const HEADER_SIGN := 0x5A6B
  const PROTOBUF_NONE: byte := 0x02

  /** internal_prev_header, packed: len, bKicking, nOK, userId, ip, session, aesKey, checksum. */
  const PREV_SIZE := 70
  /** Header, packed: len, crc, ver, sign, mainId, subId, encType, reserve, reqId, realSize. */
  const HEADER_SIZE := 18

  function Word(lo: byte, hi: byte): (w: int)
    ensures 0 <= w < 0x10000
  {
    lo + 256 * hi
  }

  function WordAt(s: seq<byte>, i: nat): (w: int)
    requires i + 1 < |s|
    ensures 0 <= w < 0x10000
  {
    Word(s[i], s[i + 1])
  }

  function Lo(w: int): byte {
    w % 256
  }

  function Hi(w: int): byte {
    w / 256 % 256
  }

  lemma WordOfBytes(w: int)
    requires 0 <= w < 0x10000
    ensures Word(Lo(w), Hi(w)) == w
  {
  }

  // ---- Checksums ----

  /** The sum of the first n 16-bit words, wrapped to 16 bits. */
  function WordSum(s: seq<byte>, n: nat): (w: int)
    requires 2 * n <= |s|
    ensures 0 <= w < 0x10000
  {
    if n == 0 then 0 else (WordSum(s, n - 1) + WordAt(s, 2 * (n - 1))) % 0x10000
  }

  /** A trailing odd byte counts as a word of its own. */
  function CheckSum(s: seq<byte>): (w: int)
    ensures 0 <= w < 0x10000
  {
    var words := WordSum(s, |s| / 2);
    if |s| % 2 == 0 then words else (words + s[|s| - 1]) % 0x10000
  }

  method GetCheckSum(header: array<byte>, start: nat, size: nat) returns (sum: int)
    requires start + size <= header.Length
    ensures sum == CheckSum(header[start..start + size])
  {
    ghost var s := header[start..start + size];
    sum := 0;
    var p := start;
    for i := 0 to size / 2
      invariant p == start + 2 * i && sum == WordSum(s, i)
    {
      sum := (sum + Word(header[p], header[p + 1])) % 0x10000;
      p := p + 2;
    }
    if size % 2 != 0 {
      sum := (sum + header[p]) % 0x10000;
    }
  }

  /** The sum before wrapping. */
  ghost function RawSum(s: seq<byte>, n: nat): int
    requires 2 * n <= |s|
  {
    if n == 0 then 0 else RawSum(s, n - 1) + WordAt(s, 2 * (n - 1))
  }

  lemma {:induction false} WordSumWraps(s: seq<byte>, n: nat)
    requires 2 * n <= |s|
    ensures WordSum(s, n) == RawSum(s, n) % 0x10000
  {
    if n > 0 {
      WordSumWraps(s, n - 1);
      WrapInside(RawSum(s, n - 1), WordAt(s, 2 * (n - 1)));
    }
  }

  lemma WrapInside(a: int, x: int)
    ensures (a % 0x10000 + x) % 0x10000 == (a + x) % 0x10000
  {
    assert a + x == a % 0x10000 + x + 0x10000 * (a / 0x10000);
  }

  lemma CheckSumWraps(s: seq<byte>)
    ensures CheckSum(s) == (RawSum(s, |s| / 2) + if |s| % 2 == 0 then 0 else s[|s| - 1]) % 0x10000
  {
    WordSumWraps(s, |s| / 2);
    if |s| % 2 != 0 {
      WrapInside(RawSum(s, |s| / 2), s[|s| - 1]);
    }
  }

  /** Only the word that holds the changed byte changes the sum, by the byte or 256 times it. */
  lemma {:induction false} RawSumChange(s: seq<byte>, t: seq<byte>, n: nat, i: nat)
    requires i < |s| == |t| && 2 * n <= |s| && forall k | 0 <= k < |s| && k != i :: s[k] == t[k]
    ensures var weight: int := if i % 2 == 0 then 1 else 256;
            RawSum(s, n) - RawSum(t, n) == if i >= 2 * n then 0 else weight * s[i] - weight * t[i]
  {
    if n > 0 {
      RawSumChange(s, t, n - 1, i);
    }
  }

  /** One wrong byte anywhere is always found. */
  lemma OneByteFound(s: seq<byte>, t: seq<byte>, i: nat)
    requires i < |s| == |t| && s[i] != t[i] && forall k | 0 <= k < |s| && k != i :: s[k] == t[k]
    ensures CheckSum(s) != CheckSum(t)
  {
    hide RawSum, CheckSum;
    CheckSumWraps(s);
    CheckSumWraps(t);
    RawSumChange(s, t, |s| / 2, i);
    var x := RawSum(s, |s| / 2) + if |s| % 2 == 0 then 0 else s[|s| - 1];
    var y := RawSum(t, |s| / 2) + if |s| % 2 == 0 then 0 else t[|s| - 1];
    assert -0x10000 < x - y < 0x10000 && x != y;
    CloseNumbersDiffer(x, y);
  }

  lemma CloseNumbersDiffer(x: int, y: int)
    requires x != y && -0x10000 < x - y < 0x10000
    ensures x % 0x10000 != y % 0x10000
  {
  }

  // ---- The inner header's own checksum ----

  /** SetCheckSum sums all words but the last and stores the sum there. */
  ghost predicate Sealed(header: seq<byte>)
    requires |header| == PREV_SIZE
  {
    WordAt(header, PREV_SIZE - 2) == WordSum(header, PREV_SIZE / 2 - 1)
  }

  method SetCheckSum(header: array<byte>)
    requires header.Length == PREV_SIZE
    modifies header
    ensures Sealed(header[..])
    ensures header[..PREV_SIZE - 2] == old(header[..PREV_SIZE - 2])
  {
    var sum := 0;
    for i := 0 to PREV_SIZE / 2 - 1
      invariant header[..] == old(header[..]) && sum == WordSum(header[..], i)
    {
      sum := (sum + Word(header[2 * i], header[2 * i + 1])) % 0x10000;
    }
    ghost var before := header[..];
    header[PREV_SIZE - 2], header[PREV_SIZE - 1] := Lo(sum), Hi(sum);
    WordOfBytes(sum);
    WordSumWraps(before, PREV_SIZE / 2 - 1);
    SamePrefixSum(before, header[..], PREV_SIZE / 2 - 1);
  }

  lemma {:induction false} SamePrefixSum(s: seq<byte>, t: seq<byte>, n: nat)
    requires 2 * n <= |s| && 2 * n <= |t| && forall k | 0 <= k < 2 * n :: s[k] == t[k]
    ensures WordSum(s, n) == WordSum(t, n)
  {
    if n > 0 {
      SamePrefixSum(s, t, n - 1);
    }
  }

  method CheckCheckSum(header: array<byte>) returns (ok: bool)
    requires header.Length == PREV_SIZE
    ensures ok <==> Sealed(header[..])
  {
    var sum := 0;
    for i := 0 to PREV_SIZE / 2 - 1
      invariant sum == WordSum(header[..], i)
    {
      sum := (sum + Word(header[2 * i], header[2 * i + 1])) % 0x10000;
    }
    ok := Word(header[PREV_SIZE - 2], header[PREV_SIZE - 1]) == sum;
  }

  /** A sealed header with one byte changed is not sealed. */
  lemma SealBroken(s: seq<byte>, t: seq<byte>, i: nat)
    requires |s| == |t| == PREV_SIZE && i < PREV_SIZE && s[i] != t[i] && Sealed(s)
    requires forall k | 0 <= k < PREV_SIZE && k != i :: s[k] == t[k]
    ensures !Sealed(t)
  {
    var n := PREV_SIZE / 2 - 1;
    if i < 2 * n {
      WordSumWraps(s, n);
      WordSumWraps(t, n);
      RawSumChange(s, t, n, i);
      CloseNumbersDiffer(RawSum(s, n), RawSum(t, n));
    } else {
      SamePrefixSum(s, t, n);
      WordDiffers(s, t, i);
    }
  }

  lemma WordDiffers(s: seq<byte>, t: seq<byte>, i: nat)
    requires i < |s| == |t| && i / 2 < |s| / 2
    requires s[i] != t[i] && forall k | 0 <= k < |s| && k != i :: s[k] == t[k]
    ensures WordAt(s, 2 * (i / 2)) != WordAt(t, 2 * (i / 2))
  {
    assert i == 2 * (i / 2) || i == 2 * (i / 2) + 1;
  }

  // ---- Packets ----

  /** What sendData makes of a buffer: both headers copied over its front, then the fields that
      depend on the size, the checksum last. */
  function Packet(prev: seq<byte>, command: seq<byte>, data: seq<byte>): (p: seq<byte>)
    requires |prev| == PREV_SIZE && |command| == HEADER_SIZE && |data| >= PREV_SIZE + HEADER_SIZE
    ensures |p| == |data|
  {
    var crc := CheckSum(Checked(command, data));
    Unsummed(prev, command, data)[PREV_SIZE + 2 := Lo(crc)][PREV_SIZE + 3 := Hi(crc)]
  }

  /** The part the checksum covers. */
  function Checked(command: seq<byte>, data: seq<byte>): (c: seq<byte>)
    requires |command| == HEADER_SIZE && |data| >= PREV_SIZE + HEADER_SIZE
    ensures |c| == |data| - PREV_SIZE - 4
  {
    var realSize := |data| - PREV_SIZE - HEADER_SIZE;
    command[4..10] + [PROTOBUF_NONE] + command[11..16] + [Lo(realSize), Hi(realSize)] + data[PREV_SIZE + HEADER_SIZE..]
  }

  function Unsummed(prev: seq<byte>, command: seq<byte>, data: seq<byte>): (p: seq<byte>)
    requires |prev| == PREV_SIZE && |command| == HEADER_SIZE && |data| >= PREV_SIZE + HEADER_SIZE
    ensures |p| == |data|
  {
    var len := |data| - PREV_SIZE;
    [Lo(|data|), Hi(|data|)] + prev[2..] + [Lo(len), Hi(len)] + command[2..4] + Checked(command, data)
  }

  /** processRequest's test before it dispatches. */
  predicate Accepted(frame: seq<byte>) {
    && |frame| >= PREV_SIZE + HEADER_SIZE
    && WordAt(frame, PREV_SIZE) == |frame| - PREV_SIZE
    && WordAt(frame, PREV_SIZE + 2) == CheckSum(frame[PREV_SIZE + 4..])
    && WordAt(frame, PREV_SIZE + 4) == PROTO_VER
    && WordAt(frame, PREV_SIZE + 6) == HEADER_SIGN
  }

  /** Built with the right version and sign, a packet of at most 65535 bytes is accepted. */
  lemma PacketAccepted(prev: seq<byte>, command: seq<byte>, data: seq<byte>)
    requires |prev| == PREV_SIZE && |command| == HEADER_SIZE && PREV_SIZE + HEADER_SIZE <= |data| < 0x10000
    ensures WordAt(Packet(prev, command, data), 0) == |data|
    ensures Accepted(Packet(prev, command, data)) <==>
            WordAt(command, 4) == PROTO_VER && WordAt(command, 6) == HEADER_SIGN
  {
    hide CheckSum;
    var p := Packet(prev, command, data);
    var len := |data| - PREV_SIZE;
    WordOfBytes(|data|);
    WordOfBytes(len);
    assert p[PREV_SIZE] == Lo(len) && p[PREV_SIZE + 1] == Hi(len);
    WordOfBytes(CheckSum(p[PREV_SIZE + 4..]));
    assert WordAt(p, PREV_SIZE + 4) == WordAt(command, 4) && WordAt(p, PREV_SIZE + 6) == WordAt(command, 6);
  }

  /** An accepted frame with any one byte after the inner header changed is not accepted. */
  lemma DamageRejected(s: seq<byte>, t: seq<byte>, i: nat)
    requires Accepted(s) && |t| == |s| && PREV_SIZE <= i < |s| && s[i] != t[i]
    requires forall k | 0 <= k < |s| && k != i :: s[k] == t[k]
    ensures !Accepted(t)
  {
    hide CheckSum;
    var h := PREV_SIZE;
    if i < h + 2 {
      assert WordAt(t, h) != WordAt(s, h);
    } else if i < h + 4 {
      assert t[h + 4..] == s[h + 4..];
      assert WordAt(t, h + 2) != WordAt(s, h + 2);
    } else {
      OneByteFound(s[h + 4..], t[h + 4..], i - h - 4);
      assert WordAt(t, h + 2) == WordAt(s, h + 2);
    }
  }

  /** What the receiver can still read from a packet: the body untouched, the sender's command
      fields, and the size of the body. */
  lemma PacketCarries(prev: seq<byte>, command: seq<byte>, data: seq<byte>)
    requires |prev| == PREV_SIZE && |command| == HEADER_SIZE && PREV_SIZE + HEADER_SIZE <= |data| < 0x10000
    ensures var p := Packet(prev, command, data);
            && p[PREV_SIZE + HEADER_SIZE..] == data[PREV_SIZE + HEADER_SIZE..]
            && p[2..PREV_SIZE] == prev[2..]
            && p[PREV_SIZE + 8..PREV_SIZE + 10] == command[8..10]
            && p[PREV_SIZE + 10] == PROTOBUF_NONE
            && p[PREV_SIZE + 11..PREV_SIZE + 16] == command[11..16]
            && WordAt(p, PREV_SIZE + 16) == |data| - PREV_SIZE - HEADER_SIZE
  {
    hide CheckSum;
    WordOfBytes(|data| - PREV_SIZE - HEADER_SIZE);
  }

  /** sendData overwrites the length of the inner header and leaves its seal as it was: a sealed
      header arrives sealed only if it already carried this length. */
  lemma SealOnlyForThisLength(prev: seq<byte>, command: seq<byte>, data: seq<byte>)
    requires |prev| == PREV_SIZE && |command| == HEADER_SIZE && PREV_SIZE + HEADER_SIZE <= |data| < 0x10000
    requires Sealed(prev)
    ensures Sealed(Packet(prev, command, data)[..PREV_SIZE]) <==> WordAt(prev, 0) == |data|
  {
    hide CheckSum;
    var h, n := Packet(prev, command, data)[..PREV_SIZE], PREV_SIZE / 2 - 1;
    WordOfBytes(|data|);
    assert h == [Lo(|data|), Hi(|data|)] + prev[2..];
    FirstWordChange(prev, h, n);
    WordSumWraps(prev, n);
    WordSumWraps(h, n);
    if WordAt(prev, 0) != |data| {
      CloseNumbersDiffer(RawSum(prev, n), RawSum(h, n));
    }
  }

  lemma {:induction false} FirstWordChange(s: seq<byte>, t: seq<byte>, n: nat)
    requires |s| == |t| && 2 <= 2 * n <= |s| && s[2..] == t[2..]
    ensures RawSum(s, n) - RawSum(t, n) == WordAt(s, 0) - WordAt(t, 0)
  {
    if n > 1 {
      FirstWordChange(s, t, n - 1);
      var i := 2 * (n - 1);
      assert s[2..][i - 2] == s[i] && s[2..][i - 1] == s[i + 1];
      assert t[2..][i - 2] == t[i] && t[2..][i - 1] == t[i + 1];
    }
  }

  method CopyInto(target: array<byte>, start: nat, source: array<byte>)
    requires start + source.Length <= target.Length && target != source
    modifies target
    ensures target[..] == old(target[..start]) + source[..] + old(target[start + source.Length..])
  {
    for i := 0 to source.Length
      invariant target[..start] == old(target[..start])
      invariant target[start..start + i] == source[..i]
      invariant target[start + i..] == old(target[start + i..])
    {
      target[start + i] := source[i];
      assert target[start..start + i + 1] == target[start..start + i] + [source[i]];
    }
    assert target[..] == target[..start] + target[start..start + source.Length] + target[start + source.Length..];
  }

  method PutWord(target: array<byte>, at: nat, w: int)
    requires at + 1 < target.Length
    modifies target
    ensures target[..] == old(target[..])[at := Lo(w)][at + 1 := Hi(w)]
  {
    target[at], target[at + 1] := Lo(w), Hi(w);
  }

  /** Builds the packet in the buffer and hands it to the connection, if there still is one. The
      result is true either way. */
  method SendData(connected: bool, data: array<byte>, prev: array<byte>, command: array<byte>)
    returns (success: bool, sent: seq<byte>)
    requires prev.Length == PREV_SIZE && command.Length == HEADER_SIZE
    requires PREV_SIZE + HEADER_SIZE <= data.Length < 0x10000 && data != prev && data != command
    modifies data
    ensures success
    ensures connected ==> sent == data[..] == Packet(prev[..], command[..], old(data[..]))
    ensures !connected ==> sent == [] && data[..] == old(data[..])
  {
    success := true;
    if !connected {
      return success, [];
    }
    ghost var given := data[..];
    WriteHeaders(data, prev, command);
    assert data[PREV_SIZE + 4..] == Checked(command[..], given);
    hide CheckSum, Unsummed, Checked;
    var crc := GetCheckSum(data, PREV_SIZE + 4, data.Length - PREV_SIZE - 4);
    assert data[PREV_SIZE + 4..data.Length] == data[PREV_SIZE + 4..];
    PutWord(data, PREV_SIZE + 2, crc);
    sent := data[..];
  }

  method WriteHeaders(data: array<byte>, prev: array<byte>, command: array<byte>)
    requires prev.Length == PREV_SIZE && command.Length == HEADER_SIZE
    requires PREV_SIZE + HEADER_SIZE <= data.Length && data != prev && data != command
    modifies data
    ensures data[..] == Unsummed(prev[..], command[..], old(data[..]))
  {
    hide Checked, Lo, Hi;
    ghost var given := data[..];
    var size := data.Length;
    CopyInto(data, 0, prev);
    assert data[..] == prev[..] + given[PREV_SIZE..];
    PutWord(data, 0, size);
    assert data[..] == [Lo(size), Hi(size)] + prev[2..] + given[PREV_SIZE..];
    CopyInto(data, PREV_SIZE, command);
    assert data[..] == [Lo(size), Hi(size)] + prev[2..] + command[..] + given[PREV_SIZE + HEADER_SIZE..];
    WriteCommandFields(data, [Lo(size), Hi(size)] + prev[2..], command[..], given);
  }

  method WriteCommandFields(data: array<byte>, ghost front: seq<byte>, ghost command: seq<byte>, ghost given: seq<byte>)
    requires |front| == PREV_SIZE && |command| == HEADER_SIZE && |given| == data.Length >= PREV_SIZE + HEADER_SIZE
    requires data[..] == front + command + given[PREV_SIZE + HEADER_SIZE..]
    modifies data
    ensures var len := |given| - PREV_SIZE;
            data[..] == front + [Lo(len), Hi(len)] + command[2..4] + Checked(command, given)
  {
    data[PREV_SIZE + 10] := PROTOBUF_NONE;
    PutWord(data, PREV_SIZE, data.Length - PREV_SIZE);
    PutWord(data, PREV_SIZE + 16, data.Length - PREV_SIZE - HEADER_SIZE);
  }

  /** The test in front of the dispatch. The checksum is only looked at when the length is right, so
      it is only taken over bytes the frame has. */
  method CheckRequest(frame: array<byte>) returns (ok: bool)
    ensures ok <==> Accepted(frame[..])
  {
    var size := frame.Length;
    if size < PREV_SIZE + HEADER_SIZE {
      return false;
    }
    var len := Word(frame[PREV_SIZE], frame[PREV_SIZE + 1]);
    if len != size - PREV_SIZE {
      return false;
    }
    var crc := GetCheckSum(frame, PREV_SIZE + 4, len - 4);
    assert frame[PREV_SIZE + 4..PREV_SIZE + len] == frame[..][PREV_SIZE + 4..];
    ok := && Word(frame[PREV_SIZE + 2], frame[PREV_SIZE + 3]) == crc
          && Word(frame[PREV_SIZE + 4], frame[PREV_SIZE + 5]) == PROTO_VER
          && Word(frame[PREV_SIZE + 6], frame[PREV_SIZE + 7]) == HEADER_SIGN;
  }
}
