/**
 The objects behind GetMediaData: the two NAL unit parsers, the media session with its queue of
 RTP payloads, and the client with its packet buffer. A pointer into a buffer is the array and
 an offset; a virtual call is a match on the kind of frame type.
 */
module MediaClient {
  import opened Common
  import opened NaluTypes
  import opened Reassembly

  function Overwrite(s: Octets, at: nat, bytes: Octets): Octets
    requires at + |bytes| <= |s|
  {
    s[..at] + bytes + s[at + |bytes|..]
  }

  /** memcpy into a buffer. */
  method CopyBytes(buf: array<bv8>, at: nat, bytes: Octets)
    requires at + |bytes| <= buf.Length
    modifies buf
    ensures buf[..] == Overwrite(old(buf[..]), at, bytes)
    ensures buf[..at] == old(buf[..at]) && buf[..at + |bytes|] == old(buf[..at]) + bytes
  {
    forall i | 0 <= i < |bytes| {
      buf[at + i] := bytes[i];
    }
  }

  /** The room that the parameter sets need, counting the start code of one that fails. */
  function PrefixRoom(sets: seq<Option<Octets>>): nat {
    if sets == [] then 0
    else if sets[0].None? || sets[0].value == [] then 4
    else 4 + |sets[0].value| + PrefixRoom(sets[1..])
  }

  /** A parameter set that decodes to something. */
  predicate Given(xps: Option<Octets>) {
    xps.Some? && xps.value != []
  }

  lemma OneSet(xps: Option<Octets>, more: seq<Option<Octets>>)
    ensures Prefix([xps] + more).ok <==> Given(xps) && Prefix(more).ok
    ensures Given(xps) ==> Prefix([xps] + more).bytes == [0, 0, 0, 1] + xps.value + Prefix(more).bytes
  {
    assert ([xps] + more)[1..] == more;
  }

  lemma TwoSets(a: Option<Octets>, b: Option<Octets>)
    ensures Prefix([a, b]).ok <==> Given(a) && Given(b)
    ensures Given(a) && Given(b) ==> Prefix([a, b]).bytes == [0, 0, 0, 1] + a.value + ([0, 0, 0, 1] + b.value)
  {
    assert [a, b] == [a] + [b] && [b] == [b] + [];
    OneSet(a, [b]);
    OneSet(b, []);
    if Given(b) {
      assert [0, 0, 0, 1] + b.value + [] == [0, 0, 0, 1] + b.value;
    }
  }

  lemma ThreeSets(a: Option<Octets>, b: Option<Octets>, c: Option<Octets>)
    ensures Prefix([a, b, c]).ok <==> Given(a) && Given(b) && Given(c)
    ensures Given(a) && Given(b) && Given(c) ==>
              Prefix([a, b, c]).bytes == [0, 0, 0, 1] + a.value + ([0, 0, 0, 1] + b.value + ([0, 0, 0, 1] + c.value))
  {
    assert [a, b, c] == [a] + [b, c];
    OneSet(a, [b, c]);
    TwoSets(b, c);
  }

  /** PrefixXPS with the parameter set already decoded; `false` also when nothing followed the start code. */
  method PrefixXps(buf: array<bv8>, at: nat, xps: Option<Octets>) returns (ok: bool, size: nat)
    requires at + 4 + (if xps.Some? then |xps.value| else 0) <= buf.Length
    modifies buf
    ensures ok <==> xps.Some? && xps.value != []
    ensures buf[..at] == old(buf[..at])
    ensures ok ==> size == 4 + |xps.value| && buf[..at + size] == old(buf[..at]) + (START_CODE + xps.value)
  {
    size := 4;
    CopyBytes(buf, at, START_CODE);
    if xps.None? {
      return false, size;
    }
    CopyBytes(buf, at + 4, xps.value);
    Associative(old(buf[..at]), START_CODE, xps.value);
    size := size + |xps.value|;
    ok := size > 4;
  }

  /** The body of both PrefixParameterOnce methods: the sets in order, up to one that fails. */
  method PrefixSets(buf: array<bv8>, sets: seq<Option<Octets>>) returns (ok: bool, size: nat)
    requires PrefixRoom(sets) <= buf.Length
    modifies buf
    ensures var r := Prefix(sets);
            ok == r.ok && size == |r.bytes| && size <= buf.Length && buf[..size] == r.bytes
  {
    ok, size := true, 0;
    ghost var written: Octets := [];
    for i := 0 to |sets|
      invariant ok && size == |written| && size + PrefixRoom(sets[i..]) <= buf.Length
      invariant buf[..size] == written
      invariant Prefix(sets) == PrefixOutcome(Prefix(sets[i..]).ok, written + Prefix(sets[i..]).bytes)
    {
      assert sets[i..][1..] == sets[i + 1..];
      var n;
      ok, n := PrefixXps(buf, size, sets[i]);
      if !ok {
        assert written + [] == written;
        return false, size;
      }
      Associative(written, START_CODE + sets[i].value, Prefix(sets[i + 1..]).bytes);
      written := written + (START_CODE + sets[i].value);
      size := size + n;
    }
    assert written + [] == written;
  }

  /** The copying in both CopyData methods: a start packet is introduced by a start code and its header. */
  method CopyChunk(buf: array<bv8>, at: nat, start: bool, header: Octets, body: Octets) returns (n: nat)
    requires at + (if start then 4 + |header| else 0) + |body| <= buf.Length
    modifies buf
    ensures var chunk := (if start then START_CODE + header else []) + body;
            n == |chunk| && at + n <= buf.Length && buf[..at + n] == old(buf[..at]) + chunk
  {
    n := 0;
    ghost var soFar := buf[..at];
    if start {
      CopyBytes(buf, at, START_CODE);
      CopyBytes(buf, at + 4, header);
      n := 4 + |header|;
      Associative(soFar, START_CODE, header);
      Associative(soFar, START_CODE + header, body);
    } else {
      assert [] + body == body;
    }
    CopyBytes(buf, at + n, body);
    n := n + |body|;
  }

  class NaluH264 {
    var prefixParameterOnce: bool
    var sps: Option<Octets>
    var pps: Option<Octets>
    var packetization: int
    var naluType: Option<H264Type>
    var startFlag: bool
    var endFlag: bool

    constructor ()
      ensures prefixParameterOnce && packetization == 0 && naluType == None
      ensures sps == pps == Some([])
    {
      prefixParameterOnce, packetization, naluType := true, 0, None;
      sps, pps := Some([]), Some([]);
      startFlag, endFlag := false, false;
    }

    method PrefixParameterOnce(buf: array<bv8>) returns (ok: bool, size: nat)
      requires PrefixRoom([sps, pps]) <= buf.Length
      modifies buf, this`prefixParameterOnce
      ensures var r := Prefix([sps, pps]);
              ok == r.ok && size == |r.bytes| && size <= buf.Length && buf[..size] == r.bytes
      ensures prefixParameterOnce == if ok then false else old(prefixParameterOnce)
      ensures ok <==> Given(sps) && Given(pps)
      ensures ok ==> buf[..size] == [0, 0, 0, 1] + sps.value + ([0, 0, 0, 1] + pps.value)
    {
      TwoSets(sps, pps);
      ok, size := PrefixSets(buf, [sps, pps]);
      if ok {
        prefixParameterOnce := false;
      }
    }

    method ParsePacket(packet: array<bv8>, size: nat) returns (status: int, end: bool)
      requires 0 < size <= packet.Length && LongEnough(H264(packetization), packet[..size])
      modifies `naluType, `startFlag, `endFlag
      ensures match ViewOf(H264(packetization), packet[..size])
              case None => status == if 0 <= packetization <= 2 then -3 else -2
              case Some(v) =>
                && status == 0 && end == endFlag == v.end && startFlag == v.start
                && naluType == Table264(packetization, TypeBits264(packet[..size]))
    {
      end := false;
      if !(0 <= packetization <= 2) {
        return -2, end;
      }
      var p := packet[..size];
      naluType := Table264(packetization, TypeBits264(p));
      if naluType == None {
        return -3, end;
      }
      startFlag := IsStart264(naluType.value, p);
      endFlag := IsEnd264(naluType.value, p);
      return 0, endFlag;
    }

    method CopyData(buf: array<bv8>, at: nat, data: array<bv8>, size: nat) returns (n: nat)
      requires buf != data && size <= data.Length
      requires naluType.Some? ==> Skip264(naluType.value) <= size && at + size + 4 <= buf.Length
      modifies buf
      ensures naluType.None? ==> n == 0 && buf[..] == old(buf[..])
      ensures naluType.Some? ==>
                var t, p := naluType.value, data[..size];
                var chunk := Chunk(View(startFlag, endFlag, [Header264(t, p)], Skip264(t)), p);
                n == |chunk| && at + n <= buf.Length && buf[..at + n] == old(buf[..at]) + chunk
    {
      n := 0;
      if naluType == None {
        return;
      }
      var p := data[..size];
      var skip := Skip264(naluType.value);
      n := CopyChunk(buf, at, startFlag, [Header264(naluType.value, p)], p[skip..]);
    }
  }

  class NaluH265 {
    var prefixParameterOnce: bool
    var vps: Option<Octets>
    var sps: Option<Octets>
    var pps: Option<Octets>
    var naluType: Option<H265Type>
    var startFlag: bool
    var endFlag: bool

    constructor ()
      ensures prefixParameterOnce && naluType == None
      ensures vps == sps == pps == Some([])
    {
      prefixParameterOnce, naluType := true, None;
      vps, sps, pps := Some([]), Some([]), Some([]);
      startFlag, endFlag := false, false;
    }

    method PrefixParameterOnce(buf: array<bv8>) returns (ok: bool, size: nat)
      requires PrefixRoom([vps, sps, pps]) <= buf.Length
      modifies buf, this`prefixParameterOnce
      ensures var r := Prefix([vps, sps, pps]);
              ok == r.ok && size == |r.bytes| && size <= buf.Length && buf[..size] == r.bytes
      ensures prefixParameterOnce == if ok then false else old(prefixParameterOnce)
      ensures ok <==> Given(vps) && Given(sps) && Given(pps)
      ensures ok ==>
                buf[..size] == [0, 0, 0, 1] + vps.value + ([0, 0, 0, 1] + sps.value + ([0, 0, 0, 1] + pps.value))
    {
      ThreeSets(vps, sps, pps);
      ok, size := PrefixSets(buf, [vps, sps, pps]);
      if ok {
        prefixParameterOnce := false;
      }
    }

    method ParsePacket(packet: array<bv8>, size: nat) returns (status: int, end: bool)
      requires 0 < size <= packet.Length && LongEnough(H265, packet[..size])
      modifies `naluType, `startFlag, `endFlag
      ensures match ViewOf(H265, packet[..size])
              case None => status == -3
              case Some(v) =>
                && status == 0 && end == endFlag == v.end && startFlag == v.start
                && naluType == Table265(TypeBits265(packet[..size]))
    {
      end := false;
      var p := packet[..size];
      naluType := Table265(TypeBits265(p));
      if naluType == None {
        return -3, end;
      }
      startFlag := IsStart265(naluType.value, p);
      endFlag := IsEnd265(naluType.value, p);
      return 0, endFlag;
    }

    method CopyData(buf: array<bv8>, at: nat, data: array<bv8>, size: nat) returns (n: nat)
      requires buf != data && size <= data.Length
      requires naluType.Some? ==> Skip265(naluType.value) <= size && at + size + 4 <= buf.Length
      modifies buf
      ensures naluType.None? ==> n == 0 && buf[..] == old(buf[..])
      ensures naluType.Some? ==>
                var t, p := naluType.value, data[..size];
                var chunk := Chunk(View(startFlag, endFlag, HeaderBytes265(Header265(t, p)), Skip265(t)), p);
                n == |chunk| && at + n <= buf.Length && buf[..at + n] == old(buf[..at]) + chunk
    {
      n := 0;
      if naluType == None {
        return;
      }
      var p := data[..size];
      var skip := Skip265(naluType.value);
      n := CopyChunk(buf, at, startFlag, HeaderBytes265(Header265(naluType.value, p)), p[skip..]);
    }
  }

  /** The frame type of a session: an object of one of the two classes. */
  datatype FrameType = H264Frame(h264: NaluH264) | H265Frame(h265: NaluH265) {
    function Objects(): set<object> {
      match this
      case H264Frame(o) => {o}
      case H265Frame(o) => {o}
    }

    ghost function CodecOf(): Codec
      reads Objects()
    {
      match this
      case H264Frame(o) => H264(o.packetization)
      case H265Frame(o) => H265
    }

    ghost function Sets(): seq<Option<Octets>>
      reads Objects()
    {
      match this
      case H264Frame(o) => [o.sps, o.pps]
      case H265Frame(o) => [o.vps, o.sps, o.pps]
    }

    function NeedPrefixParameterOnce(): bool
      reads Objects()
    {
      match this
      case H264Frame(o) => o.prefixParameterOnce
      case H265Frame(o) => o.prefixParameterOnce
    }

    /** What ParsePacket has stored for CopyData. */
    ghost predicate Parsed(p: Octets)
      requires LongEnough(CodecOf(), p)
      reads Objects()
    {
      match this
      case H264Frame(o) =>
        && p != [] && o.naluType == Table264(o.packetization, TypeBits264(p)) && o.naluType.Some?
        && o.startFlag == IsStart264(o.naluType.value, p) && o.endFlag == IsEnd264(o.naluType.value, p)
      case H265Frame(o) =>
        && o.naluType == Table265(TypeBits265(p)) && o.naluType.Some?
        && o.startFlag == IsStart265(o.naluType.value, p) && o.endFlag == IsEnd265(o.naluType.value, p)
    }

    method PrefixParameterOnce(buf: array<bv8>) returns (ok: bool, size: nat)
      requires PrefixRoom(Sets()) <= buf.Length
      modifies buf, Objects()
      ensures var r := Prefix(old(Sets()));
              ok == r.ok && size == |r.bytes| && size <= buf.Length && buf[..size] == r.bytes
      ensures NeedPrefixParameterOnce() == (if ok then false else old(NeedPrefixParameterOnce()))
      ensures CodecOf() == old(CodecOf()) && Sets() == old(Sets())
    {
      match this {
        case H264Frame(o) => ok, size := o.PrefixParameterOnce(buf);
        case H265Frame(o) => ok, size := o.PrefixParameterOnce(buf);
      }
    }

    method ParsePacket(packet: array<bv8>, size: nat) returns (status: int, end: bool)
      requires 0 < size <= packet.Length && LongEnough(CodecOf(), packet[..size])
      modifies Objects()
      ensures CodecOf() == old(CodecOf()) && Sets() == old(Sets())
      ensures NeedPrefixParameterOnce() == old(NeedPrefixParameterOnce())
      ensures var v := ViewOf(CodecOf(), packet[..size]);
              && (status == 0 <==> v.Some?)
              && (v.Some? ==> end == v.value.end && Parsed(packet[..size]))
    {
      match this {
        case H264Frame(o) => status, end := o.ParsePacket(packet, size);
        case H265Frame(o) => status, end := o.ParsePacket(packet, size);
      }
    }

    method CopyData(buf: array<bv8>, at: nat, data: array<bv8>, size: nat) returns (n: nat)
      requires buf != data && 0 < size <= data.Length && at + size + 4 <= buf.Length
      requires LongEnough(CodecOf(), data[..size]) && Parsed(data[..size])
      modifies buf
      ensures ViewOf(CodecOf(), data[..size]).Some?
      ensures var chunk := Chunk(ViewOf(CodecOf(), data[..size]).value, data[..size]);
              n == |chunk| && at + n <= buf.Length && buf[..at + n] == old(buf[..at]) + chunk
    {
      match this {
        case H264Frame(o) => n := o.CopyData(buf, at, data, size);
        case H265Frame(o) => n := o.CopyData(buf, at, data, size);
      }
    }
  }

  class MediaSession {
    var frameType: Option<FrameType>
    var connected: bool         // there is an RTP session behind it
    var packets: seq<Octets>    // RTP payloads that have arrived and are not yet taken

    constructor (frameType: Option<FrameType>)
      ensures this.frameType == frameType && !connected && packets == [] && Valid()
    {
      this.frameType, connected, packets := frameType, false, [];
    }

    /** Without an RTP session no payload arrives. */
    ghost predicate Valid()
      reads `connected, `packets
    {
      packets != [] ==> connected
    }

    /** The next payload; size 0 when none has arrived in time, and null only without an RTP session. */
    method GetMediaData(buf: array<bv8>) returns (ok: bool, size: nat)
      requires Valid() && (packets != [] ==> |packets[0]| <= buf.Length)
      modifies this`packets, buf
      ensures Valid() && ok == connected
      ensures old(packets) == [] ==> size == 0 && packets == []
      ensures old(packets) != [] ==>
                size == |old(packets)[0]| && buf[..size] == old(packets)[0] && packets == old(packets)[1..]
    {
      size := 0;
      ok := connected;
      if ok && packets != [] {
        size := |packets[0]|;
        CopyBytes(buf, 0, packets[0]);
        packets := packets[1..];
      }
    }
  }

  class RtspClient {
    const videoBuffer: array<bv8>

    constructor ()
      ensures fresh(videoBuffer) && videoBuffer.Length == 8192
    {
      videoBuffer := new bv8[MEDIA_BUFFER](_ => 0);
    }

    static ghost function Snapshot(session: MediaSession, f: FrameType): Session
      reads session, f.Objects()
    {
      Session(f.CodecOf(), f.Sets(), f.NeedPrefixParameterOnce(), session.packets)
    }

    /** One call of the reassembly loop, for a session without and with a frame type. */
    method GetMediaData(session: MediaSession, buf: array<bv8>, maxSize: nat) returns (ok: bool, size: nat)
      requires videoBuffer.Length == MEDIA_BUFFER && buf != videoBuffer && session.Valid()
      requires session.frameType.Some? ==>
                 var f := session.frameType.value;
                 && Takable(f.CodecOf(), session.packets)
                 && buf.Length >= Max(PrefixRoom(f.Sets()), maxSize + 4)
      modifies session`packets, videoBuffer, buf
      modifies if session.frameType.Some? then session.frameType.value.Objects() else {}
      ensures session.Valid()
      ensures session.frameType.None? ==>
                !ok && size == 0 && session.packets == old(session.packets) && buf[..] == old(buf[..])
      ensures session.frameType.Some? ==>
                var f := session.frameType.value;
                var r := Call(old(Snapshot(session, f)), maxSize);
                && ok == r.result.Some?
                && size == |r.written| && size <= buf.Length && buf[..size] == r.written
                && Snapshot(session, f) == r.next
    {
      size := 0;
      if session.frameType.None? {
        return false, size;
      }
      var f := session.frameType.value;
      if f.NeedPrefixParameterOnce() {
        ok, size := f.PrefixParameterOnce(buf);
        if !ok {
          return false, size;
        }
      }
      ok, size := AssembleFrame(session, f, buf, size, maxSize);
    }

    /** One packet of n octets in the packet buffer goes behind what has been assembled. */
    method AppendPacket(f: FrameType, buf: array<bv8>, at: nat, n: nat) returns (ok: bool, end: bool, size: nat)
      requires buf != videoBuffer && 0 < n <= videoBuffer.Length && at + n + 4 <= buf.Length
      requires LongEnough(f.CodecOf(), videoBuffer[..n])
      modifies buf, f.Objects()
      ensures f.CodecOf() == old(f.CodecOf()) && f.Sets() == old(f.Sets())
      ensures f.NeedPrefixParameterOnce() == old(f.NeedPrefixParameterOnce())
      ensures match ViewOf(f.CodecOf(), videoBuffer[..n])
              case None => !ok && size == at && buf[..at] == old(buf[..at])
              case Some(v) =>
                && ok && end == v.end && size == at + |Chunk(v, videoBuffer[..n])| <= buf.Length
                && buf[..size] == old(buf[..at]) + Chunk(v, videoBuffer[..n])
    {
      size := at;
      var status;
      status, end := f.ParsePacket(videoBuffer, n);
      ok := status == 0;
      if ok {
        var copied := f.CopyData(buf, at, videoBuffer, n);
        size := size + copied;
      }
    }

    /** One turn of the loop, which is the last one if `done`. */
    method TakePacket(session: MediaSession, f: FrameType, buf: array<bv8>, at: nat, maxSize: nat)
      returns (ok: bool, done: bool, size: nat)
      requires videoBuffer.Length == MEDIA_BUFFER && buf != videoBuffer && session.Valid()
      requires Takable(f.CodecOf(), session.packets)
      requires at <= buf.Length && maxSize + 4 <= buf.Length
      modifies session`packets, videoBuffer, buf, f.Objects()
      ensures session.Valid() && Takable(f.CodecOf(), session.packets) && size <= buf.Length
      ensures f.CodecOf() == old(f.CodecOf()) && f.Sets() == old(f.Sets())
      ensures f.NeedPrefixParameterOnce() == old(f.NeedPrefixParameterOnce())
      ensures !done ==> |session.packets| < |old(session.packets)|
      ensures var r := Assemble(f.CodecOf(), maxSize, old(buf[..at]), old(session.packets));
              if done then ok == r.ok && buf[..size] == r.out && session.packets == r.rest
              else SameEnd(r, Assemble(f.CodecOf(), maxSize, buf[..size], session.packets))
    {
      size := at;
      ghost var soFar, queue := buf[..size], session.packets;
      var n, end;
      ok, n := session.GetMediaData(videoBuffer);
      if !ok || n == 0 || n > videoBuffer.Length {
        return false, true, size;
      }
      AssembleNext(f.CodecOf(), maxSize, soFar, queue);
      if size + n > maxSize {
        return true, true, size;
      }
      ok, end, size := AppendPacket(f, buf, size, n);
      done := !ok || end;
    }

    method AssembleFrame(session: MediaSession, f: FrameType, buf: array<bv8>, prefix: nat, maxSize: nat)
      returns (ok: bool, size: nat)
      requires videoBuffer.Length == MEDIA_BUFFER && buf != videoBuffer && session.Valid()
      requires Takable(f.CodecOf(), session.packets)
      requires prefix <= buf.Length && maxSize + 4 <= buf.Length
      modifies session`packets, videoBuffer, buf, f.Objects()
      ensures session.Valid()
      ensures f.CodecOf() == old(f.CodecOf()) && f.Sets() == old(f.Sets())
      ensures f.NeedPrefixParameterOnce() == old(f.NeedPrefixParameterOnce())
      ensures var r := Assemble(f.CodecOf(), maxSize, old(buf[..prefix]), old(session.packets));
              && ok == r.ok
              && size == |r.out| && size <= buf.Length && buf[..size] == r.out
              && session.packets == r.rest
    {
      size := prefix;
      ghost var c := f.CodecOf();
      ghost var whole := Assemble(c, maxSize, buf[..prefix], session.packets);
      ok := true;
      var done := false;
      while !done
        invariant size <= buf.Length && session.Valid() && Takable(c, session.packets)
        invariant f.CodecOf() == c && f.Sets() == old(f.Sets())
        invariant f.NeedPrefixParameterOnce() == old(f.NeedPrefixParameterOnce())
        invariant done ==> ok == whole.ok && whole.out == buf[..size] && whole.rest == session.packets
        invariant !done ==> SameEnd(whole, Assemble(c, maxSize, buf[..size], session.packets))
        decreases !done, |session.packets|
      {
        ok, done, size := TakePacket(session, f, buf, size, maxSize);
      }
    }
  }

  /** Packets that fit the packet buffer and are empty or at least as long as their header. */
  predicate Takable(c: Codec, packets: seq<Octets>) {
    Readable(c, packets) && forall p :: p in packets ==> |p| <= MEDIA_BUFFER
  }

  /** The same result, whatever the count of copied packets. */
  ghost predicate SameEnd(a: Outcome, b: Outcome) {
    a.ok == b.ok && a.out == b.out && a.rest == b.rest
  }

  /** One turn of the loop. */
  lemma AssembleNext(c: Codec, max: nat, soFar: Octets, queue: seq<Octets>)
    requires queue != [] && Takable(c, queue) && queue[0] != []
    ensures Takable(c, queue[1..]) && LongEnough(c, queue[0])
    ensures var r, p := Assemble(c, max, soFar, queue), queue[0];
            if |soFar| + |p| > max then r.ok && r.out == soFar && r.rest == queue[1..]
            else
              match ViewOf(c, p)
              case None => !r.ok && r.out == soFar && r.rest == queue[1..]
              case Some(v) =>
                if v.end then r.ok && r.out == soFar + Chunk(v, p) && r.rest == queue[1..]
                else SameEnd(r, Assemble(c, max, soFar + Chunk(v, p), queue[1..]))
  {
  }
}
