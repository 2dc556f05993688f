/**
  The Internet checksum of sys/net.c (RFC 1071, section 1) and the UDP and IPv4
  headers of sys/udp.c and sys/ip4.c (RFC 768; RFC 791, section 3.1), on a
  little-endian machine.
 */
module Net {

  type Byte = x: int | 0 <= x < 256

  const MASK := 0xffff
  const PROTO_UDP := 17
  const IP_HDR_SIZE := 20
  const UDP_HDR_SIZE := 8
  const FRAME_MAX := 1500      // the payload arrays of struct ip4_frame and struct udp_frame
  const IP_ROOM := 4096 - 20   // the rest of a page after the IPv4 header
  const UDP_ROOM := 4096 - 8   // and after the UDP header

  // ----- sums of words -----

  /** The sum of the 16-bit words in memory, an odd last byte added as it is. */
  function WordSum(b: seq<Byte>): nat {
    if b == [] then 0 else if |b| == 1 then b[0] else b[0] + 256 * b[1] + WordSum(b[2..])
  }

  /** Carries added back in until the sum fits 16 bits: the ones' complement sum. */
  function OnesSum(s: nat): (r: nat)
    ensures r <= MASK
    decreases s
  {
    if s <= MASK then s else OnesSum(s / 0x1_0000 + s % 0x1_0000)
  }

  /** The code's two folds and its complement. */
  function Finish(s: nat): nat {
    var t := s / 0x1_0000 + s % 0x1_0000;
    MASK - (t + t / 0x1_0000) % 0x1_0000
  }

  /** In closed form: the residue modulo 65535, with 65535 standing for a nonzero multiple. */
  lemma {:induction false} OnesSumResidue(s: nat)
    ensures OnesSum(s) == if s == 0 then 0 else (s - 1) % MASK + 1
    decreases s
  {
    if s > MASK {
      var q, r := s / 0x1_0000, s % 0x1_0000;
      OnesSumResidue(q + r);
      assert s - 1 == q * MASK + (q + r - 1);
      AddMultiple(q + r - 1, q);
    }
  }

  lemma {:induction false} AddMultiple(x: nat, k: nat)
    ensures (k * MASK + x) % MASK == x % MASK
  {
    if k > 0 {
      AddMultiple(x, k - 1);
      assert k * MASK + x == (k - 1) * MASK + x + MASK;
    }
  }

  /** Two folds are enough exactly when the second leaves no carry. */
  lemma TwoFolds(s: nat)
    ensures
      var t := s / 0x1_0000 + s % 0x1_0000;
      t < 0x1_0000_0000 ==> (Finish(s) == MASK - OnesSum(s) <==> t / 0x1_0000 + t % 0x1_0000 <= MASK)
    ensures s < 0x1_0000_0000 + MASK ==> Finish(s) == MASK - OnesSum(s)
  {
    hide OnesSum;
    var t := s / 0x1_0000 + s % 0x1_0000;
    var q, r := t / 0x1_0000, t % 0x1_0000;
    OnesSumFold(s);
    OnesSumFold(t);
    DropMultiple(q + r, q);
    assert t + q == q * 0x1_0000 + (q + r);
    if t < 0x1_0000_0000 { OnesSumSmall(q + r); }
  }

  lemma OnesSumSmall(s: nat)
    requires s <= 2 * MASK
    ensures OnesSum(s) == if s <= MASK then s else s - MASK
  {
  }

  lemma DropMultiple(x: nat, k: nat)
    ensures (k * 0x1_0000 + x) % 0x1_0000 == x % 0x1_0000
  {
  }

  lemma OnesSumFold(s: nat)
    ensures OnesSum(s) == OnesSum(s / 0x1_0000 + s % 0x1_0000)
  {
  }

  /** The largest sum of len bytes. */
  lemma {:induction false} WordSumBound(b: seq<Byte>)
    ensures WordSum(b) <= |b| / 2 * MASK + if |b| % 2 == 1 then 255 else 0
    decreases |b|
  {
    if |b| > 1 { WordSumBound(b[2..]); }
  }

  ghost predicate AlwaysExact(len: nat) {
    forall b: seq<Byte> :: |b| == len ==> Finish(WordSum(b)) == MASK - OnesSum(WordSum(b))
  }

  /** 65538 words of 0xffff, a byte 1, and zeros: the folds leave a carry behind. */
  function Carrying(len: nat): seq<Byte>
    requires len > 131076
  {
    seq(len, i => if i < 131076 then 255 else if i == 131076 then 1 else 0)
  }

  lemma {:induction false} SumOfOnes(b: seq<Byte>, n: nat)
    requires 2 * n <= |b| && forall i :: 0 <= i < 2 * n ==> b[i] == 255
    ensures WordSum(b) == n * MASK + WordSum(b[2 * n..])
    decreases n
  {
    if n > 0 {
      SumOfOnes(b[2..], n - 1);
      assert b[2..][2 * (n - 1)..] == b[2 * n..];
    } else {
      assert b[0..] == b;
    }
  }

  lemma {:induction false} SumOfZeros(b: seq<Byte>)
    requires forall i :: 0 <= i < |b| ==> b[i] == 0
    ensures WordSum(b) == 0
    decreases |b|
  {
    if |b| > 1 { SumOfZeros(b[2..]); }
  }

  /** chksum is the ones' complement checksum of every input of a length exactly up to 131076 bytes. */
  lemma ChksumExact(len: nat)
    ensures AlwaysExact(len) <==> len <= 131076
  {
    if len <= 131076 {
      forall b: seq<Byte> | |b| == len
        ensures Finish(WordSum(b)) == MASK - OnesSum(WordSum(b))
      {
        WordSumBound(b);
        TwoFolds(WordSum(b));
      }
    } else {
      var b := Carrying(len);
      SumOfOnes(b, 65538);
      var tail := b[131076..];
      if len > 131077 { SumOfZeros(tail[2..]); }
      assert WordSum(tail) == 1;
      assert WordSum(b) == 0x1_0000_0000 + MASK;
      TwoFolds(WordSum(b));
    }
  }

  /** With its complement added, a sum folds to all ones. */
  lemma SumVerifies(s: nat)
    ensures OnesSum(s + (MASK - OnesSum(s))) == MASK
  {
    OnesSumResidue(s);
    var c := MASK - OnesSum(s);
    OnesSumResidue(s + c);
    if s > 0 {
      var q := (s - 1) / MASK;
      assert s - 1 == q * MASK + (s - 1) % MASK;
      assert s + c - 1 == q * MASK + (MASK - 1);
      AddMultiple(MASK - 1, q);
    }
  }

  lemma {:induction false} WordSumAppend(a: seq<Byte>, b: seq<Byte>)
    requires |a| % 2 == 0
    ensures WordSum(a + b) == WordSum(a) + WordSum(b)
    decreases |a|
  {
    if a == [] {
      assert a + b == b;
    } else {
      assert (a + b)[2..] == a[2..] + b;
      WordSumAppend(a[2..], b);
    }
  }

  // ----- checksum code -----

  method SumWords(b: seq<Byte>, start: nat) returns (cksum: nat)
    ensures cksum == start + WordSum(b)
  {
    cksum := start;
    var i := 0;
    while |b| - i > 1
      invariant 0 <= i <= |b| && cksum + WordSum(b[i..]) == start + WordSum(b)
    {
      assert b[i..][2..] == b[i + 2..];
      cksum := cksum + Word(b, i);
      i := i + 2;
    }
    if i < |b| { cksum := cksum + b[i]; }
  }

  method Chksum(b: seq<Byte>) returns (r: nat)
    ensures r == Finish(WordSum(b))
    ensures |b| <= 131076 ==> r == MASK - OnesSum(WordSum(b))
  {
    hide WordSum, OnesSum;
    var cksum := SumWords(b, 0);
    WordSumBound(b);
    TwoFolds(cksum);
    cksum := cksum / 0x1_0000 + cksum % 0x1_0000;
    cksum := cksum + cksum / 0x1_0000;
    r := MASK - cksum % 0x1_0000;
  }

  // ----- byte order -----

  function Lo(x: nat): Byte { x % 256 }

  function Hi(x: nat): Byte
    requires x <= MASK
  {
    x / 256
  }

  /** htons and ntohs. */
  function Swap16(x: nat): (r: nat)
    requires x <= MASK
    ensures r <= MASK
  {
    x / 256 + x % 256 * 256
  }

  function Word(b: seq<Byte>, i: nat): (r: nat)
    requires i + 2 <= |b|
    ensures r <= MASK
  {
    (b[i] as int) + 256 * (b[i + 1] as int)
  }

  lemma SwapTwice(x: nat)
    requires x <= MASK
    ensures Swap16(Swap16(x)) == x
  {
  }

  lemma SwapZero()
    ensures Swap16(0) == 0
  {
  }

  /** A 32-bit value as its two 16-bit halves, low half first, as memory holds it. */
  datatype U32 = U32(lo: nat, hi: nat) {
    predicate Valid() { lo <= MASK && hi <= MASK }
  }

  /** htonl and ntohl. */
  function Swap32(x: U32): (r: U32)
    requires x.Valid()
    ensures r.Valid()
  {
    U32(Swap16(x.hi), Swap16(x.lo))
  }

  /** The code's shifts and masks on the whole value. */
  lemma Swap32Shuffles(x: U32)
    requires x.Valid()
    ensures
      var v := x.lo + 0x1_0000 * x.hi;
      Swap32(x).lo + 0x1_0000 * Swap32(x).hi
        == v % 0x100 * 0x100_0000 + v / 0x100 % 0x100 * 0x1_0000 + v / 0x1_0000 % 0x100 * 0x100 + v / 0x100_0000
  {
    var a, b, c, d := x.lo % 256, x.lo / 256, x.hi % 256, x.hi / 256;
    var v := x.lo + 0x1_0000 * x.hi;
    assert v == a + 0x100 * (b + 0x100 * (c + 0x100 * d));
    assert v % 0x100 == a && v / 0x100 == b + 0x100 * (c + 0x100 * d);
    assert v / 0x100 % 0x100 == b;
    assert v / 0x1_0000 == c + 0x100 * d && v / 0x1_0000 % 0x100 == c && v / 0x100_0000 == d;
  }

  function Long(b: seq<Byte>, i: nat): (r: U32)
    requires i + 4 <= |b|
    ensures r.Valid()
  {
    U32(Word(b, i), Word(b, i + 2))
  }

  // ----- headers -----

  datatype UdpHdr = UdpHdr(srcPort: nat, dstPort: nat, len: nat, csum: nat) {
    predicate Valid() { srcPort <= MASK && dstPort <= MASK && len <= MASK && csum <= MASK }
  }

  datatype UdpFrame = UdpFrame(hdr: UdpHdr, payload: seq<Byte>)

  datatype Ip4Hdr = Ip4Hdr(verIhl: Byte, tos: Byte, totalLen: nat, id: nat, frag: nat, ttl: Byte, proto: Byte,
                           csum: nat, src: U32, dst: U32) {
    predicate Valid() { totalLen <= MASK && id <= MASK && frag <= MASK && csum <= MASK && src.Valid() && dst.Valid() }
  }

  /**
    A frame being received, in its page: the header and the memory after it. The
    payload array is the first FRAME_MAX bytes of that memory and payload_len the
    next two (struct ip4_frame) or four (struct udp_frame).
   */
  datatype Rx<H> = Rx(hdr: H, mem: seq<Byte>)

  /** Error is the parsers' -1; Overrun is a copy that leaves the frame's page. */
  datatype Result<T> = Ok(value: T) | Error | Overrun

  /** The packed structs as memory holds them. */
  function UdpBytes(h: UdpHdr): (b: seq<Byte>)
    requires h.Valid()
    ensures |b| == UDP_HDR_SIZE
  {
    [Lo(h.srcPort), Hi(h.srcPort), Lo(h.dstPort), Hi(h.dstPort), Lo(h.len), Hi(h.len), Lo(h.csum), Hi(h.csum)]
  }

  function Ip4Bytes(h: Ip4Hdr): (b: seq<Byte>)
    requires h.Valid()
    ensures |b| == IP_HDR_SIZE
  {
    [h.verIhl, h.tos, Lo(h.totalLen), Hi(h.totalLen), Lo(h.id), Hi(h.id), Lo(h.frag), Hi(h.frag), h.ttl, h.proto,
     Lo(h.csum), Hi(h.csum), Lo(h.src.lo), Hi(h.src.lo), Lo(h.src.hi), Hi(h.src.hi),
     Lo(h.dst.lo), Hi(h.dst.lo), Lo(h.dst.hi), Hi(h.dst.hi)]
  }

  /** The pseudo-header of RFC 768; the length is already in network order. */
  function PseudoBytes(src: U32, dst: U32, len: nat): (b: seq<Byte>)
    requires src.Valid() && dst.Valid() && len <= MASK
    ensures |b| == 12
  {
    [Lo(src.lo), Hi(src.lo), Lo(src.hi), Hi(src.hi), Lo(dst.lo), Hi(dst.lo), Lo(dst.hi), Hi(dst.hi), 0, PROTO_UDP, Lo(len), Hi(len)]
  }

  /** What the UDP checksum covers. */
  function UdpCovered(src: U32, dst: U32, hdr: UdpHdr, payload: seq<Byte>): seq<Byte>
    requires src.Valid() && dst.Valid() && hdr.Valid()
  {
    PseudoBytes(src, dst, hdr.len) + UdpBytes(hdr) + payload
  }

  method UdpChecksum(src: U32, dst: U32, hdr: UdpHdr, payload: seq<Byte>) returns (r: nat)
    requires src.Valid() && dst.Valid() && hdr.Valid() && |payload| <= MASK
    ensures r == MASK - OnesSum(WordSum(UdpCovered(src, dst, hdr, payload)))
  {
    hide WordSum, OnesSum;
    ghost var pseudo, header := PseudoBytes(src, dst, hdr.len), UdpBytes(hdr);
    var cksum := SumWords(PseudoBytes(src, dst, hdr.len), 0);
    cksum := SumWords(UdpBytes(hdr), cksum);
    cksum := SumWords(payload, cksum);
    WordSumAppend(pseudo, header);
    WordSumAppend(pseudo + header, payload);
    WordSumBound(pseudo + header + payload);
    TwoFolds(cksum);
    cksum := cksum / 0x1_0000 + cksum % 0x1_0000;
    cksum := cksum + cksum / 0x1_0000;
    r := MASK - cksum % 0x1_0000;
  }

  // ----- building -----

  /** build_udp; the destination port is stored as it is given. */
  method BuildUdp(srcPort: nat, dstPort: nat, payload: seq<Byte>, src: U32, dst: U32) returns (udp: UdpFrame)
    requires srcPort <= MASK && dstPort <= MASK && |payload| <= FRAME_MAX && src.Valid() && dst.Valid()
    ensures udp == Udp(srcPort, dstPort, payload, src, dst)
  {
    var hdr := UdpHdr(Swap16(srcPort), dstPort, Swap16(|payload| + UDP_HDR_SIZE), 0);
    var csum := UdpChecksum(src, dst, hdr, payload);
    udp := UdpFrame(hdr.(csum := csum), payload);
  }

  ghost function Udp(srcPort: nat, dstPort: nat, payload: seq<Byte>, src: U32, dst: U32): (udp: UdpFrame)
    requires srcPort <= MASK && dstPort <= MASK && |payload| <= FRAME_MAX && src.Valid() && dst.Valid()
    ensures udp.hdr.Valid()
  {
    var hdr := UdpHdr(Swap16(srcPort), dstPort, Swap16(|payload| + UDP_HDR_SIZE), 0);
    UdpFrame(hdr.(csum := MASK - OnesSum(WordSum(UdpCovered(src, dst, hdr, payload)))), payload)
  }

  method BuildIp4(src: U32, dst: U32, proto: Byte, len: nat) returns (hdr: Ip4Hdr)
    requires src.Valid() && dst.Valid() && len <= MASK
    ensures hdr == Ip4(src, dst, proto, len)
  {
    hdr := Ip4Hdr(4 * 16 + 5, 0, Swap16(len), 0, 0, 64, proto, 0, Swap32(src), Swap32(dst));
    var csum := Chksum(Ip4Bytes(hdr));
    hdr := hdr.(csum := csum);
  }

  ghost function Ip4(src: U32, dst: U32, proto: Byte, len: nat): (hdr: Ip4Hdr)
    requires src.Valid() && dst.Valid() && len <= MASK
    ensures hdr.Valid()
  {
    var h := Ip4Hdr(4 * 16 + 5, 0, Swap16(len), 0, 0, 64, proto, 0, Swap32(src), Swap32(dst));
    h.(csum := MASK - OnesSum(WordSum(Ip4Bytes(h))))
  }

  // ----- parsing -----

  /** memmove of the bytes to the start of mem, past the payload array if they are that many. */
  function Copied(bytes: seq<Byte>, mem: seq<Byte>): (r: seq<Byte>)
    requires |bytes| <= |mem|
    ensures |r| == |mem|
  {
    bytes + mem[|bytes|..]
  }

  function ReadIp4Hdr(buf: seq<Byte>): Ip4Hdr
    requires IP_HDR_SIZE <= |buf|
  {
    Ip4Hdr(buf[0], buf[1], Swap16(Word(buf, 2)), Swap16(Word(buf, 4)), Swap16(Word(buf, 6)), buf[8], buf[9],
           Swap16(Word(buf, 10)), Swap32(Long(buf, 12)), Swap32(Long(buf, 16)))
  }

  function ParseIp4(buf: seq<Byte>, len: nat, mem: seq<Byte>): Result<Rx<Ip4Hdr>>
    requires IP_HDR_SIZE <= |buf| && len <= |buf| && |mem| == IP_ROOM
  {
    var hdr := ReadIp4Hdr(buf);
    var hdrLen := buf[0] % 16 * 4;
    if hdrLen < IP_HDR_SIZE || hdrLen > len || hdr.totalLen > len then Error
    else
      var n := (len - hdrLen) % 0x1_0000;
      if n > IP_ROOM then Overrun
      else Ok(Rx(hdr, Copied(buf[hdrLen..hdrLen + n], mem[FRAME_MAX := Lo(n)][FRAME_MAX + 1 := Hi(n)])))
  }

  /** payload_len of a received IPv4 frame, as a later reader finds it. */
  function Ip4Len(f: Rx<Ip4Hdr>): nat
    requires |f.mem| == IP_ROOM
  {
    Word(f.mem, FRAME_MAX)
  }

  function ParseUdp(buf: seq<Byte>, len: nat, mem: seq<Byte>): Result<Rx<UdpHdr>>
    requires len <= |buf| && len <= MASK && |mem| == UDP_ROOM
  {
    if len < UDP_HDR_SIZE then Error
    else
      var hdr := UdpHdr(Swap16(Word(buf, 0)), Swap16(Word(buf, 2)), Swap16(Word(buf, 4)), Swap16(Word(buf, 6)));
      var n := len - UDP_HDR_SIZE;
      if hdr.len < UDP_HDR_SIZE || hdr.len > len then Error
      else if n > UDP_ROOM then Overrun
      else
        Ok(Rx(hdr, Copied(buf[UDP_HDR_SIZE..len], WithUdpLen(mem, n))))
  }

  /** The store of the 32-bit payload_len behind the payload array. */
  function WithUdpLen(mem: seq<Byte>, n: nat): seq<Byte>
    requires |mem| == UDP_ROOM && n <= MASK
  {
    mem[FRAME_MAX := Lo(n)][FRAME_MAX + 1 := Hi(n)][FRAME_MAX + 2 := 0][FRAME_MAX + 3 := 0]
  }

  function UdpLen(f: Rx<UdpHdr>): U32
    requires |f.mem| == UDP_ROOM
  {
    Long(f.mem, FRAME_MAX)
  }

  /** handle_ip4_packet hands the payload and the length it finds to parse_udp_packet. */
  function HandleUdp(f: Rx<Ip4Hdr>, mem: seq<Byte>): Result<Rx<UdpHdr>>
    requires |f.mem| == IP_ROOM && |mem| == UDP_ROOM
  {
    if Ip4Len(f) > IP_ROOM then Overrun else ParseUdp(f.mem, Ip4Len(f), mem)
  }

  /** The 16 bits at i as the network writes them, high byte first. */
  function Big16(b: seq<Byte>, i: nat): nat
    requires i + 2 <= |b|
  {
    256 * (b[i] as int) + (b[i + 1] as int)
  }

  lemma NetworkOrder(b: seq<Byte>, i: nat)
    requires i + 2 <= |b|
    ensures Swap16(Word(b, i)) == Big16(b, i)
  {
  }

  /** What the bytes copied in leave of a length stored behind the payload array. */
  lemma CopiedLength(bytes: seq<Byte>, mem: seq<Byte>, n: nat)
    requires |bytes| == n <= |mem| && n <= MASK && FRAME_MAX + 2 <= |mem|
    ensures
      var r := Copied(bytes, mem[FRAME_MAX := Lo(n)][FRAME_MAX + 1 := Hi(n)]);
      && r[..n] == bytes
      && Word(r, FRAME_MAX) ==
           if n <= FRAME_MAX then n
           else if n == FRAME_MAX + 1 then (bytes[FRAME_MAX] as int) + 256 * (n / 256)
           else Word(bytes, FRAME_MAX)
  {
  }

  lemma Ip4Fields(buf: seq<Byte>)
    requires IP_HDR_SIZE <= |buf|
    ensures
      var h := ReadIp4Hdr(buf);
      && h.verIhl == buf[0] && h.tos == buf[1] && h.ttl == buf[8] && h.proto == buf[9]
      && h.totalLen == Big16(buf, 2) && h.id == Big16(buf, 4) && h.frag == Big16(buf, 6) && h.csum == Big16(buf, 10)
      && h.src == U32(Big16(buf, 14), Big16(buf, 12)) && h.dst == U32(Big16(buf, 18), Big16(buf, 16))
  {
    NetworkOrder(buf, 2);
    NetworkOrder(buf, 4);
    NetworkOrder(buf, 6);
    NetworkOrder(buf, 10);
    NetworkOrder(buf, 12);
    NetworkOrder(buf, 14);
    NetworkOrder(buf, 16);
    NetworkOrder(buf, 18);
    hide Swap16, Big16;
  }

  /**
    parse_ip4_packet reads big-endian fields, and accepts exactly by the header
    and total lengths. The payload is what follows the header; its length is
    kept when it fits the array, and otherwise overwritten with payload bytes.
   */
  lemma ParseIp4Reads(buf: seq<Byte>, len: nat, mem: seq<Byte>)
    requires IP_HDR_SIZE <= |buf| && len <= |buf| && |mem| == IP_ROOM
    ensures
      var r, ihl := ParseIp4(buf, len, mem), 4 * ((buf[0] as int) % 16);
      var n := (len - ihl) % 0x1_0000;
      && (r != Error <==> 20 <= ihl <= len && Big16(buf, 2) <= len)
      && (r != Error ==> (r == Overrun <==> n > 4076))
      && (r.Ok? ==>
            var h := r.value.hdr;
            && h.verIhl == buf[0] && h.tos == buf[1] && h.ttl == buf[8] && h.proto == buf[9]
            && h.totalLen == Big16(buf, 2) && h.id == Big16(buf, 4) && h.frag == Big16(buf, 6) && h.csum == Big16(buf, 10)
            && h.src == U32(Big16(buf, 14), Big16(buf, 12)) && h.dst == U32(Big16(buf, 18), Big16(buf, 16))
            && |r.value.mem| == IP_ROOM && r.value.mem[..n] == buf[ihl..ihl + n]
            && Ip4Len(r.value) ==
                 if n <= FRAME_MAX then n
                 else if n == FRAME_MAX + 1 then (buf[ihl + FRAME_MAX] as int) + 256 * (n / 256)
                 else Word(buf, ihl + FRAME_MAX))
  {
    Ip4Fields(buf);
    hide ReadIp4Hdr, Big16, Copied;
    var r, ihl := ParseIp4(buf, len, mem), 4 * ((buf[0] as int) % 16);
    if r.Ok? {
      var n := (len - ihl) % 0x1_0000;
      CopiedLength(buf[ihl..ihl + n], mem, n);
    }
  }

  lemma UdpLenStored(src: seq<Byte>, mem: seq<Byte>, n: nat)
    requires |mem| == UDP_ROOM && |src| == n <= UDP_ROOM
    ensures
      var copied := Copied(src, WithUdpLen(mem, n));
      && |copied| == UDP_ROOM && copied[..n] == src
      && (forall j :: n <= j < UDP_ROOM ==>
            copied[j] == if FRAME_MAX <= j < FRAME_MAX + 4 then [Lo(n), Hi(n), 0, 0][j - FRAME_MAX] else mem[j])
      && (n <= FRAME_MAX ==> Long(copied, FRAME_MAX) == U32(n, 0))
      && (n >= FRAME_MAX + 4 ==> Long(copied, FRAME_MAX) == Long(src, FRAME_MAX))
  {
  }

  /** The same of parse_udp_packet. */
  lemma ParseUdpReads(buf: seq<Byte>, len: nat, mem: seq<Byte>)
    requires len <= |buf| && len <= MASK && |mem| == UDP_ROOM
    ensures
      var r, n := ParseUdp(buf, len, mem), len - 8;
      && (r != Error <==> 8 <= len && 8 <= Big16(buf, 4) <= len)
      && (r != Error ==> (r == Overrun <==> n > 4088))
      && (r.Ok? ==>
            && r.value.hdr == UdpHdr(Big16(buf, 0), Big16(buf, 2), Big16(buf, 4), Big16(buf, 6))
            && |r.value.mem| == UDP_ROOM && r.value.mem[..n] == buf[8..len]
            && (forall j :: n <= j < UDP_ROOM ==>
                  r.value.mem[j] == if FRAME_MAX <= j < FRAME_MAX + 4 then [Lo(n), Hi(n), 0, 0][j - FRAME_MAX] else mem[j])
            && (n <= FRAME_MAX ==> UdpLen(r.value) == U32(n, 0))
            && (n >= FRAME_MAX + 4 ==> UdpLen(r.value) == Long(buf, 8 + FRAME_MAX)))
  {
    if len >= UDP_HDR_SIZE {
      NetworkOrder(buf, 0);
      NetworkOrder(buf, 2);
      NetworkOrder(buf, 4);
      NetworkOrder(buf, 6);
    }
    hide Swap16, Big16, Copied, WithUdpLen;
    if ParseUdp(buf, len, mem).Ok? {
      UdpLenStored(buf[8..len], mem, len - 8);
    }
  }

  // ----- what goes out comes in -----

  lemma WordOf(b: seq<Byte>, i: nat, x: nat)
    requires i + 2 <= |b| && x <= MASK && b[i] == Lo(x) && b[i + 1] == Hi(x)
    ensures Word(b, i) == x
  {
  }

  /** Storing c into a zeroed word at an even offset adds c to the sum. */
  lemma {:induction false} StoreSum(b: seq<Byte>, k: nat, c: nat)
    requires k % 2 == 0 && k + 2 <= |b| && b[k] == b[k + 1] == 0 && c <= MASK
    ensures WordSum(b[k := Lo(c)][k + 1 := Hi(c)]) == WordSum(b) + c
    decreases k
  {
    var d := b[k := Lo(c)][k + 1 := Hi(c)];
    if k == 0 {
      assert d[2..] == b[2..];
    } else {
      assert d[2..] == b[2..][k - 2 := Lo(c)][k - 1 := Hi(c)];
      StoreSum(b[2..], k - 2, c);
    }
  }

  /** The bytes udp_sendto hands to the Ethernet layer. */
  ghost function Datagram(srcPort: nat, dstPort: nat, payload: seq<Byte>, src: U32, dst: U32): (b: seq<Byte>)
    requires srcPort <= MASK && dstPort <= MASK && |payload| <= FRAME_MAX && src.Valid() && dst.Valid()
    ensures |b| == IP_HDR_SIZE + UDP_HDR_SIZE + |payload|
  {
    var udp := Udp(srcPort, dstPort, payload, Swap32(src), Swap32(dst));
    Ip4Bytes(Ip4(src, dst, PROTO_UDP, |payload| + UDP_HDR_SIZE + IP_HDR_SIZE)) + (UdpBytes(udp.hdr) + payload)
  }

  lemma Ip4Verifies(src: U32, dst: U32, proto: Byte, len: nat)
    requires src.Valid() && dst.Valid() && len <= MASK
    ensures OnesSum(WordSum(Ip4Bytes(Ip4(src, dst, proto, len)))) == MASK
  {
    hide WordSum, OnesSum;
    var h := Ip4Hdr(4 * 16 + 5, 0, Swap16(len), 0, 0, 64, proto, 0, Swap32(src), Swap32(dst));
    var s := WordSum(Ip4Bytes(h));
    var c := MASK - OnesSum(s);
    assert Ip4Bytes(h.(csum := c)) == Ip4Bytes(h)[10 := Lo(c)][11 := Hi(c)];
    StoreSum(Ip4Bytes(h), 10, c);
    SumVerifies(s);
  }

  lemma UdpVerifies(srcPort: nat, dstPort: nat, payload: seq<Byte>, src: U32, dst: U32)
    requires srcPort <= MASK && dstPort <= MASK && |payload| <= FRAME_MAX && src.Valid() && dst.Valid()
    ensures
      var udp := Udp(srcPort, dstPort, payload, src, dst);
      OnesSum(WordSum(UdpCovered(src, dst, udp.hdr, payload))) == MASK
  {
    hide WordSum, OnesSum;
    var h := UdpHdr(Swap16(srcPort), dstPort, Swap16(|payload| + UDP_HDR_SIZE), 0);
    var b: seq<Byte> := UdpCovered(src, dst, h, payload);
    var c := MASK - OnesSum(WordSum(b));
    assert UdpCovered(src, dst, h.(csum := c), payload) == b[18 := Lo(c)][19 := Hi(c)];
    StoreSum(b, 18, c);
    SumVerifies(WordSum(b));
  }

  /** A header and payload in the first bytes of a buffer are parsed back. */
  lemma UdpRoundTrip(srcPort: nat, dstPort: nat, payload: seq<Byte>, src: U32, dst: U32, b: seq<Byte>, mem: seq<Byte>)
    requires srcPort <= MASK && dstPort <= MASK && |payload| <= FRAME_MAX && src.Valid() && dst.Valid()
    requires
      var body := UdpBytes(Udp(srcPort, dstPort, payload, src, dst).hdr) + payload;
      |body| <= |b| && b[..|body|] == body
    requires |mem| == UDP_ROOM
    ensures
      var udp, n := Udp(srcPort, dstPort, payload, src, dst), |payload|;
      var r := ParseUdp(b, n + UDP_HDR_SIZE, mem);
      && r.Ok? && |r.value.mem| == UDP_ROOM && UdpLen(r.value) == U32(n, 0) && r.value.mem[..n] == payload
      && r.value.hdr == UdpHdr(srcPort, Swap16(dstPort), n + UDP_HDR_SIZE, Swap16(udp.hdr.csum))
  {
    hide WordSum, OnesSum;
    var udp := Udp(srcPort, dstPort, payload, src, dst);
    var body := UdpBytes(udp.hdr) + payload;
    assert forall i :: 0 <= i < |body| ==> b[i] == body[i];
    WordOf(b, 0, udp.hdr.srcPort);
    WordOf(b, 2, dstPort);
    WordOf(b, 4, udp.hdr.len);
    WordOf(b, 6, udp.hdr.csum);
    SwapTwice(srcPort);
    SwapTwice(|payload| + UDP_HDR_SIZE);
    assert b[UDP_HDR_SIZE..|body|] == payload;
  }

  lemma Ip4Words(hdr: Ip4Hdr, body: seq<Byte>)
    requires hdr.Valid()
    ensures
      var b := Ip4Bytes(hdr) + body;
      && b[0] == hdr.verIhl && b[1] == hdr.tos && Word(b, 2) == hdr.totalLen && Word(b, 4) == hdr.id && Word(b, 6) == hdr.frag
      && b[8] == hdr.ttl && b[9] == hdr.proto && Word(b, 10) == hdr.csum && Long(b, 12) == hdr.src && Long(b, 16) == hdr.dst
  {
    hide Word, Lo, Hi;
    var b := Ip4Bytes(hdr) + body;
    WordOf(b, 2, hdr.totalLen);
    WordOf(b, 4, hdr.id);
    WordOf(b, 6, hdr.frag);
    WordOf(b, 10, hdr.csum);
    WordOf(b, 12, hdr.src.lo);
    WordOf(b, 14, hdr.src.hi);
    WordOf(b, 16, hdr.dst.lo);
    WordOf(b, 18, hdr.dst.hi);
  }

  lemma Swap32Twice(x: U32)
    requires x.Valid()
    ensures Swap32(Swap32(x)) == x
  {
    SwapTwice(x.lo);
    SwapTwice(x.hi);
  }

  /** A built packet is parsed back; the length of its body survives when the body fits the array. */
  lemma Ip4RoundTrip(src: U32, dst: U32, proto: Byte, body: seq<Byte>, mem: seq<Byte>)
    requires src.Valid() && dst.Valid() && |body| <= IP_ROOM && |mem| == IP_ROOM
    ensures
      var hdr := Ip4(src, dst, proto, |body| + IP_HDR_SIZE);
      var b := Ip4Bytes(hdr) + body;
      var r := ParseIp4(b, |b|, mem);
      && r.Ok? && |r.value.mem| == IP_ROOM && r.value.mem[..|body|] == body
      && r.value.hdr == Ip4Hdr(4 * 16 + 5, 0, |b|, 0, 0, 64, proto, Swap16(hdr.csum), src, dst)
      && Ip4Len(r.value) ==
           if |body| <= FRAME_MAX then |body|
           else if |body| == FRAME_MAX + 1 then (body[FRAME_MAX] as int) + 256 * (|body| / 256)
           else Word(body, FRAME_MAX)
  {
    hide WordSum, OnesSum, Swap16, Swap32, Word, Long, Ip4Bytes, Copied, Lo, Hi;
    var hdr := Ip4(src, dst, proto, |body| + IP_HDR_SIZE);
    var b := Ip4Bytes(hdr) + body;
    Ip4Words(hdr, body);
    SwapTwice(|body| + IP_HDR_SIZE);
    SwapZero();
    Swap32Twice(src);
    Swap32Twice(dst);
    assert b[IP_HDR_SIZE..|b|] == body;
    CopiedLength(body, mem, |body|);
  }

  /** What the receiver makes of the packet, in two zeroed or otherwise filled pages. */
  ghost predicate Delivered(b: seq<Byte>, mem1: seq<Byte>, mem2: seq<Byte>,
                            srcPort: nat, dstPort: nat, payload: seq<Byte>, src: U32, dst: U32)
    requires IP_HDR_SIZE <= |b| && |mem1| == IP_ROOM && |mem2| == UDP_ROOM && dstPort <= MASK
  {
    var ip := ParseIp4(b, |b|, mem1);
    && ip.Ok? && |ip.value.mem| == IP_ROOM
    && ip.value.hdr.src == src && ip.value.hdr.dst == dst && ip.value.hdr.proto == PROTO_UDP && ip.value.hdr.totalLen == |b|
    && var udp := HandleUdp(ip.value, mem2);
       && udp.Ok? && |udp.value.mem| == UDP_ROOM && |payload| <= UDP_ROOM
       && UdpLen(udp.value) == U32(|payload|, 0) && udp.value.mem[..|payload|] == payload
       && udp.value.hdr.srcPort == srcPort && udp.value.hdr.dstPort == Swap16(dstPort)
  }

  /**
    A datagram of at most 1492 bytes, for any ports and addresses, is accepted by
    both parsers, which give back the addresses, the payload and the ports, the
    destination port with its bytes swapped.
   */
  lemma DatagramRoundTrip(srcPort: nat, dstPort: nat, payload: seq<Byte>, src: U32, dst: U32, mem1: seq<Byte>, mem2: seq<Byte>)
    requires srcPort <= MASK && dstPort <= MASK && |payload| + UDP_HDR_SIZE <= FRAME_MAX && src.Valid() && dst.Valid()
    requires |mem1| == IP_ROOM && |mem2| == UDP_ROOM
    ensures Delivered(Datagram(srcPort, dstPort, payload, src, dst), mem1, mem2, srcPort, dstPort, payload, src, dst)
  {
    hide WordSum, OnesSum, Swap32, Ip4Bytes, UdpBytes, ParseUdp, ParseIp4, Udp, Ip4;
    var udp := Udp(srcPort, dstPort, payload, Swap32(src), Swap32(dst));
    var body := UdpBytes(udp.hdr) + payload;
    Ip4RoundTrip(src, dst, PROTO_UDP, body, mem1);
    var b := Datagram(srcPort, dstPort, payload, src, dst);
    var f := ParseIp4(b, |b|, mem1).value;
    UdpRoundTrip(srcPort, dstPort, payload, Swap32(src), Swap32(dst), f.mem, mem2);
  }

  /** From 1493 bytes on, the copy runs over payload_len: a payload of zeros is then rejected. */
  lemma LongDatagramLost(srcPort: nat, dstPort: nat, n: nat, src: U32, dst: U32, mem1: seq<Byte>, mem2: seq<Byte>)
    requires srcPort <= MASK && dstPort <= MASK && FRAME_MAX < n + UDP_HDR_SIZE && n <= FRAME_MAX && src.Valid() && dst.Valid()
    requires |mem1| == IP_ROOM && |mem2| == UDP_ROOM
    ensures
      var b := Datagram(srcPort, dstPort, Zeros(n), src, dst);
      var ip := ParseIp4(b, |b|, mem1);
      ip.Ok? && |ip.value.mem| == IP_ROOM && HandleUdp(ip.value, mem2) == Error
  {
    hide WordSum, OnesSum, Swap32, Ip4Bytes, ParseIp4, Ip4;
    var payload := Zeros(n);
    var udp := Udp(srcPort, dstPort, payload, Swap32(src), Swap32(dst));
    var body := UdpBytes(udp.hdr) + payload;
    assert body[FRAME_MAX] == 0 && (n + 8 > FRAME_MAX + 1 ==> Word(body, FRAME_MAX) == 0);
    Ip4RoundTrip(src, dst, PROTO_UDP, body, mem1);
    var b := Datagram(srcPort, dstPort, payload, src, dst);
    var f := ParseIp4(b, |b|, mem1).value;
    assert f.mem[..|body|][4] == f.mem[4] && f.mem[..|body|][5] == f.mem[5];
    WordOf(f.mem, 4, udp.hdr.len);
    SwapTwice(n + UDP_HDR_SIZE);
  }

  function Zeros(n: nat): seq<Byte> {
    seq(n, _ => 0)
  }

  ghost predicate AlwaysDelivered(n: nat)
    requires n <= FRAME_MAX
  {
    forall srcPort: nat, dstPort: nat, payload: seq<Byte>, src: U32, dst: U32, mem1: seq<Byte>, mem2: seq<Byte> ::
      srcPort <= MASK && dstPort <= MASK && |payload| == n && src.Valid() && dst.Valid() && |mem1| == IP_ROOM && |mem2| == UDP_ROOM ==>
        Delivered(Datagram(srcPort, dstPort, payload, src, dst), mem1, mem2, srcPort, dstPort, payload, src, dst)
  }

  /** Of the payload lengths udp_sendto takes, exactly those up to 1492 are delivered whatever the payload. */
  lemma DatagramExact(n: nat)
    requires n <= FRAME_MAX
    ensures AlwaysDelivered(n) <==> n <= 1492
  {
    hide Delivered, Datagram;
    if n <= 1492 {
      forall srcPort: nat, dstPort: nat, payload: seq<Byte>, src: U32, dst: U32, mem1: seq<Byte>, mem2: seq<Byte> |
        srcPort <= MASK && dstPort <= MASK && |payload| == n && src.Valid() && dst.Valid() && |mem1| == IP_ROOM && |mem2| == UDP_ROOM
        ensures Delivered(Datagram(srcPort, dstPort, payload, src, dst), mem1, mem2, srcPort, dstPort, payload, src, dst)
      {
        DatagramRoundTrip(srcPort, dstPort, payload, src, dst, mem1, mem2);
      }
    } else {
      var zero := U32(0, 0);
      var payload, mem1, mem2 := Zeros(n), Zeros(IP_ROOM), Zeros(UDP_ROOM);
      assert zero.Valid() && |payload| == n && |mem1| == IP_ROOM && |mem2| == UDP_ROOM;
      LostIsNotDelivered(n, zero);
    }
  }

  lemma LostIsNotDelivered(n: nat, a: U32)
    requires 1492 < n <= FRAME_MAX && a.Valid()
    ensures !Delivered(Datagram(0, 0, Zeros(n), a, a), Zeros(IP_ROOM), Zeros(UDP_ROOM), 0, 0, Zeros(n), a, a)
  {
    hide Datagram, ParseIp4, HandleUdp;
    LongDatagramLost(0, 0, n, a, a, Zeros(IP_ROOM), Zeros(UDP_ROOM));
  }

  // ----- on the wire -----

  /** The IPv4 header byte by byte: version 4, five words, time to live 64, and everything in network order. */
  lemma Ip4Wire(src: U32, dst: U32, proto: Byte, len: nat)
    requires src.Valid() && dst.Valid() && len <= MASK
    ensures
      var b := Ip4Bytes(Ip4(src, dst, proto, len));
      && b[..10] == [0x45, 0, len / 256, len % 256, 0, 0, 0, 0, 64, proto]
      && b[12..16] == [src.hi / 256, src.hi % 256, src.lo / 256, src.lo % 256]
      && b[16..20] == [dst.hi / 256, dst.hi % 256, dst.lo / 256, dst.lo % 256]
  {
    SwapBytes(len);
    SwapBytes(src.lo);
    SwapBytes(src.hi);
    SwapBytes(dst.lo);
    SwapBytes(dst.hi);
    hide WordSum, OnesSum, Swap16, Lo, Hi;
  }

  lemma SwapBytes(x: nat)
    requires x <= MASK
    ensures Lo(Swap16(x)) == x / 256 && Hi(Swap16(x)) == x % 256
  {
  }

  /** The UDP header: source port and length in network order, the destination port in the machine's. */
  lemma UdpWire(srcPort: nat, dstPort: nat, payload: seq<Byte>, src: U32, dst: U32)
    requires srcPort <= MASK && dstPort <= MASK && |payload| <= FRAME_MAX && src.Valid() && dst.Valid()
    ensures
      var b, n := UdpBytes(Udp(srcPort, dstPort, payload, src, dst).hdr), |payload| + 8;
      b[..6] == [srcPort / 256, srcPort % 256, dstPort % 256, dstPort / 256, n / 256, n % 256]
  {
    SwapBytes(srcPort);
    SwapBytes(|payload| + 8);
    hide WordSum, OnesSum, Swap16;
  }

  /** The sum as RFC 1071 defines it, of words with the high byte first; an odd last byte is followed by zero. */
  function WireSum(b: seq<Byte>): nat {
    if b == [] then 0 else if |b| == 1 then 256 * b[0] else 256 * b[0] + b[1] + WireSum(b[2..])
  }

  /** The bytes at even places, or at odd ones. */
  function ByteSum(b: seq<Byte>, odd: bool): nat {
    if b == [] then 0 else (if odd then 0 else b[0]) + ByteSum(b[1..], !odd)
  }

  /** Each order's sum is 256 times the other's, modulo 65535. */
  lemma {:induction false} OrdersAgree(b: seq<Byte>)
    ensures 256 * WordSum(b) == WireSum(b) + MASK * ByteSum(b, true)
    ensures 256 * WireSum(b) == WordSum(b) + MASK * ByteSum(b, false)
    decreases |b|
  {
    if |b| > 1 {
      OrdersAgree(b[2..]);
      assert b[1..][1..] == b[2..];
      assert ByteSum(b, true) == b[1] + ByteSum(b[2..], true) && ByteSum(b, false) == b[0] + ByteSum(b[2..], false);
    } else if |b| == 1 {
      assert b[1..] == [];
    }
  }

  lemma SumIsMask(s: nat)
    ensures OnesSum(s) == MASK <==> s > 0 && s % MASK == 0
  {
    hide OnesSum;
    OnesSumResidue(s);
    if s > 0 {
      var q, r := (s - 1) / MASK, (s - 1) % MASK;
      assert s == q * MASK + (r + 1);
      AddMultiple(r + 1, q);
      Small(r + 1);
    }
  }

  lemma Small(x: nat)
    requires 0 < x <= MASK
    ensures x % MASK == 0 <==> x == MASK
  {
  }

  lemma Divides(x: nat, y: nat, k: nat)
    requires 256 * x == y + MASK * k && x % MASK == 0
    ensures y % MASK == 0
  {
    var q := x / MASK;
    assert y == MASK * (256 * q - k);
    if 256 * q - k > 0 { AddMultiple(0, 256 * q - k); }
  }

  /** A receiver that sums in network order accepts exactly what the little-endian sum accepts. */
  lemma WireOrder(b: seq<Byte>)
    ensures OnesSum(WireSum(b)) == MASK <==> OnesSum(WordSum(b)) == MASK
  {
    hide WordSum, WireSum, ByteSum, OnesSum;
    OrdersAgree(b);
    SumIsMask(WordSum(b));
    SumIsMask(WireSum(b));
    if WordSum(b) % MASK == 0 { Divides(WordSum(b), WireSum(b), ByteSum(b, true)); }
    if WireSum(b) % MASK == 0 { Divides(WireSum(b), WordSum(b), ByteSum(b, false)); }
  }

  /**
    Both checksums of a built datagram verify in network order, from the bytes of
    the packet: the IPv4 header's, and UDP's over the two addresses, the protocol
    17, the UDP length and the datagram.
   */
  lemma DatagramVerifies(srcPort: nat, dstPort: nat, payload: seq<Byte>, src: U32, dst: U32)
    requires srcPort <= MASK && dstPort <= MASK && |payload| <= FRAME_MAX && src.Valid() && dst.Valid()
    ensures
      var b := Datagram(srcPort, dstPort, payload, src, dst);
      && |b| == 28 + |payload| && OnesSum(WireSum(b[..20])) == 0xffff
      && OnesSum(WireSum(b[12..20] + [0, 17] + b[24..26] + b[20..])) == 0xffff
  {
    hide WordSum, OnesSum, WireSum;
    var b := Datagram(srcPort, dstPort, payload, src, dst);
    var udp := Udp(srcPort, dstPort, payload, Swap32(src), Swap32(dst));
    var body := UdpBytes(udp.hdr) + payload;
    var hdr := Ip4(src, dst, PROTO_UDP, |body| + IP_HDR_SIZE);
    assert b == Ip4Bytes(hdr) + body;
    Ip4Verifies(src, dst, PROTO_UDP, |body| + IP_HDR_SIZE);
    assert b[..IP_HDR_SIZE] == Ip4Bytes(hdr) && b[IP_HDR_SIZE..] == body;
    UdpVerifies(srcPort, dstPort, payload, Swap32(src), Swap32(dst));
    CoveredSeen(hdr, udp.hdr, payload);
    WireOrder(b[..20]);
    WireOrder(b[12..20] + [0, 17] + b[24..26] + b[20..]);
  }

  /** The receiver finds what the checksum covers in the packet itself. */
  lemma CoveredSeen(hdr: Ip4Hdr, udp: UdpHdr, payload: seq<Byte>)
    requires hdr.Valid() && udp.Valid()
    ensures
      var body := UdpBytes(udp) + payload;
      var b := Ip4Bytes(hdr) + body;
      b[12..20] + [0, 17] + b[24..26] + b[20..] == UdpCovered(hdr.src, hdr.dst, udp, payload)
  {
    var body := UdpBytes(udp) + payload;
    var b := Ip4Bytes(hdr) + body;
    assert b[20..] == body;
    assert b[12..20] + [0, 17] + b[24..26] == PseudoBytes(hdr.src, hdr.dst, udp.len);
    assert PseudoBytes(hdr.src, hdr.dst, udp.len) + body == PseudoBytes(hdr.src, hdr.dst, udp.len) + UdpBytes(udp) + payload;
  }
}
