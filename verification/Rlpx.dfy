/**
 The RLPx frame codec (`p2p/rlpx.go`): every message is a 16-byte header and a padded body, both
 encrypted by position in one key stream and both authenticated by a rolling MAC. Writer and
 reader stay in step as long as they agree on that position and on that MAC state.

 The primitives are parameters: Keccak-256, the AES block function, the AES-CTR key stream by
 position, and snappy. A MAC state is the input hashed so far.
 */
module Rlpx {
  import opened Bytes
  import opened Rlp

  const MAX_UINT24 := 0xFF_FFFF
  const UINT32 := 0x1_0000_0000

  type Digest = bs: seq<byte> | |bs| == 32 witness seq(32, i => 0)
  type Block = bs: seq<byte> | |bs| == 16 witness seq(16, i => 0)

  datatype Suite = Suite(
    keccak: seq<byte> -> Digest,
    aes: (seq<byte>, seq<byte>) -> Block,
    keyStream: (seq<byte>, nat) -> byte,
    compress: seq<byte> -> seq<byte>,
    decompress: seq<byte> -> Result<seq<byte>>,
    plainLen: seq<byte> -> Result<nat>)

  ghost predicate Lawful(c: Suite) {
    forall x :: c.decompress(c.compress(x)) == Ok(x) && c.plainLen(c.compress(x)) == Ok(|x|)
  }

  datatype Keys = Keys(aes: seq<byte>, mac: seq<byte>)

  /** One direction of a connection: how much key stream is used up, and the rolling MAC. */
  datatype Half = Half(pos: nat, mac: seq<byte>)

  datatype Msg = Msg(code: nat, size: nat, payload: seq<byte>) {
    ghost predicate Typed() {
      code < UINT64 && size < UINT32
    }
  }

  // ---------------------------------------------------------------- building blocks

  function XorKeyStream(c: Suite, key: seq<byte>, pos: nat, bs: seq<byte>): (r: seq<byte>)
    ensures |r| == |bs|
  {
    seq(|bs|, i requires 0 <= i < |bs| => bs[i] ^ c.keyStream(key, pos + i))
  }

  lemma KeyStreamCancels(c: Suite, key: seq<byte>, pos: nat, bs: seq<byte>)
    ensures XorKeyStream(c, key, pos, XorKeyStream(c, key, pos, bs)) == bs
  {
  }

  lemma KeyStreamSplits(c: Suite, key: seq<byte>, pos: nat, a: seq<byte>, b: seq<byte>)
    ensures XorKeyStream(c, key, pos, a + b) == XorKeyStream(c, key, pos, a) + XorKeyStream(c, key, pos + |a|, b)
  {
  }

  function UpdateMac(c: Suite, key: seq<byte>, mac: seq<byte>, seed: seq<byte>): (r: (seq<byte>, seq<byte>))
    requires |seed| >= 16
    ensures |r.1| == 16
  {
    var next := mac + Xor(c.aes(key, c.keccak(mac)[..16]), seed);
    (next, c.keccak(next)[..16])
  }

  function PutInt24(v: nat): (bs: seq<byte>)
    requires v <= MAX_UINT24
    ensures |bs| == 3
  {
    [ByteOf(v / 65536), ByteOf(v / 256 % 256), ByteOf(v % 256)]
  }

  function ReadInt24(bs: seq<byte>): (v: nat)
    requires |bs| >= 3
  {
    (bs[2] as int) + (bs[1] as int) * 256 + (bs[0] as int) * 65536
  }

  lemma Int24RoundTrip(v: nat, rest: seq<byte>)
    requires v <= MAX_UINT24
    ensures ReadInt24(PutInt24(v) + rest) == v
  {
    hide ByteOf;
    assert v == v % 256 + (v / 256 % 256) * 256 + (v / 65536) * 65536;
  }

  function Padding(fsize: nat): (p: nat)
    ensures (fsize + p) % 16 == 0 && p < 16
  {
    if fsize % 16 > 0 then 16 - fsize % 16 else 0
  }

  function Header(fsize: nat): (h: seq<byte>)
    requires fsize <= MAX_UINT24
    ensures |h| == 16
  {
    PutInt24(fsize) + [0xC2, 0x80, 0x80] + Zeros(10)
  }

  // ---------------------------------------------------------------- one frame

  /** The frame with this header and this padded body, and the state it leaves. */
  function Sealed(c: Suite, k: Keys, h: Half, header: seq<byte>, padded: seq<byte>): (r: (seq<byte>, Half))
    requires |header| == 16
    ensures |r.0| == 48 + |padded|
  {
    var head := XorKeyStream(c, k.aes, h.pos, header);
    var (mac1, headMac) := UpdateMac(c, k.mac, h.mac, head);
    var body := XorKeyStream(c, k.aes, h.pos + 16, padded);
    var (mac2, frameMac) := UpdateMac(c, k.mac, mac1 + body, c.keccak(mac1 + body));
    (head + headMac + body + frameMac, Half(h.pos + 16 + |body|, mac2))
  }

  /** The frame that announces `fsize` bytes and carries `content`. */
  function Seal(c: Suite, k: Keys, h: Half, fsize: nat, content: seq<byte>): (r: (seq<byte>, Half))
    requires fsize <= MAX_UINT24
  {
    Sealed(c, k, h, Header(fsize), content + Zeros(Padding(fsize)))
  }

  lemma SealParts(c: Suite, k: Keys, h: Half, fsize: nat, content: seq<byte>)
    requires fsize <= MAX_UINT24
    ensures var head := XorKeyStream(c, k.aes, h.pos, Header(fsize));
            var (mac1, headMac) := UpdateMac(c, k.mac, h.mac, head);
            var body := XorKeyStream(c, k.aes, h.pos + 16, content + Zeros(Padding(fsize)));
            var (mac2, frameMac) := UpdateMac(c, k.mac, mac1 + body, c.keccak(mac1 + body));
            forall sent :: sent + (head + headMac) + (body + frameMac) == sent + Seal(c, k, h, fsize, content).0
                           && Seal(c, k, h, fsize, content).1 == Half(h.pos + 16 + |body|, mac2)
  {
    hide XorKeyStream, UpdateMac, Header, Zeros, Padding;
    var (wire, next) := Seal(c, k, h, fsize, content);
    forall a: seq<byte>, b: seq<byte>, x: seq<byte>, y: seq<byte>, z: seq<byte>
      ensures z + (a + b) + (x + y) == z + (a + b + x + y)
    {
    }
  }

  /** The content of the frame at the head of `wire`, the state after it, and the bytes behind it. */
  function Open(c: Suite, k: Keys, h: Half, wire: seq<byte>): (r: Result<(seq<byte>, Half, seq<byte>)>)
  {
    if |wire| < 32 then Err(ShortRead)
    else
      var (mac1, headMac) := UpdateMac(c, k.mac, h.mac, wire[..16]);
      if headMac != wire[16..32] then Err(BadHeaderMac)
      else
        var fsize := ReadInt24(XorKeyStream(c, k.aes, h.pos, wire[..16]));
        var rsize := fsize + Padding(fsize);
        var tail := wire[32..];
        if |tail| < rsize + 16 then Err(ShortRead)
        else
          var body := tail[..rsize];
          var (mac2, frameMac) := UpdateMac(c, k.mac, mac1 + body, c.keccak(mac1 + body));
          if frameMac != tail[rsize..rsize + 16] then Err(BadFrameMac)
          else Ok((XorKeyStream(c, k.aes, h.pos + 16, body)[..fsize], Half(h.pos + 16 + rsize, mac2), tail[rsize + 16..]))
  }

  /** The bytes are a frame of this header and padding, and others behind it. */
  ghost predicate IsFrame(c: Suite, k: Keys, h: Half, wire: seq<byte>, content: seq<byte>, next: Half, rest: seq<byte>,
                          header: seq<byte>, pad: seq<byte>)
  {
    && |header| == 16 && ReadInt24(header) == |content| && |pad| == Padding(|content|)
    && wire == Sealed(c, k, h, header, content + pad).0 + rest && next == Sealed(c, k, h, header, content + pad).1
  }

  /** The reader accepts exactly the frames that its own keys and state make, of any header that announces what they carry. */
  lemma OpenExactly(c: Suite, k: Keys, h: Half, wire: seq<byte>, content: seq<byte>, next: Half, rest: seq<byte>)
    ensures Open(c, k, h, wire) == Ok((content, next, rest)) <==>
              exists header, pad :: IsFrame(c, k, h, wire, content, next, rest, header, pad)
  {
    hide Open, IsFrame;
    if Open(c, k, h, wire) == Ok((content, next, rest)) {
      var header, pad := OpenedIsFrame(c, k, h, wire, content, next, rest);
    }
    if header, pad :| IsFrame(c, k, h, wire, content, next, rest, header, pad) {
      FrameOpens(c, k, h, wire, content, next, rest, header, pad);
    }
  }

  lemma OpenedIsFrame(c: Suite, k: Keys, h: Half, wire: seq<byte>, content: seq<byte>, next: Half, rest: seq<byte>)
      returns (header: seq<byte>, pad: seq<byte>)
    requires Open(c, k, h, wire) == Ok((content, next, rest))
    ensures IsFrame(c, k, h, wire, content, next, rest, header, pad)
  {
    hide UpdateMac, XorKeyStream, ReadInt24, Padding;
    header := XorKeyStream(c, k.aes, h.pos, wire[..16]);
    KeyStreamCancels(c, k.aes, h.pos, wire[..16]);
    var fsize := ReadInt24(header);
    var rsize, tail := fsize + Padding(fsize), wire[32..];
    var padded := XorKeyStream(c, k.aes, h.pos + 16, tail[..rsize]);
    KeyStreamCancels(c, k.aes, h.pos + 16, tail[..rsize]);
    pad := padded[fsize..];
    assert content + pad == padded;
    assert wire == wire[..16] + wire[16..32] + tail[..rsize] + tail[rsize..rsize + 16] + tail[rsize + 16..];
  }

  lemma FrameOpens(c: Suite, k: Keys, h: Half, wire: seq<byte>, content: seq<byte>, next: Half, rest: seq<byte>,
                   header: seq<byte>, pad: seq<byte>)
    requires IsFrame(c, k, h, wire, content, next, rest, header, pad)
    ensures Open(c, k, h, wire) == Ok((content, next, rest))
  {
    hide UpdateMac, XorKeyStream, ReadInt24, Padding;
    var padded := content + pad;
    var head := XorKeyStream(c, k.aes, h.pos, header);
    var (mac1, headMac) := UpdateMac(c, k.mac, h.mac, head);
    var body := XorKeyStream(c, k.aes, h.pos + 16, padded);
    var (mac2, frameMac) := UpdateMac(c, k.mac, mac1 + body, c.keccak(mac1 + body));
    FrameParts(head, headMac, body, frameMac, rest);
    KeyStreamCancels(c, k.aes, h.pos, header);
    KeyStreamCancels(c, k.aes, h.pos + 16, padded);
    assert padded[..|content|] == content;
  }

  /** Whatever follows it on the wire, a frame opens to what was sealed and leaves the reader where it left the writer. */
  lemma OpenSeal(c: Suite, k: Keys, h: Half, content: seq<byte>, rest: seq<byte>)
    requires |content| <= MAX_UINT24
    ensures var (wire, next) := Seal(c, k, h, |content|, content);
            Open(c, k, h, wire + rest) == Ok((content, next, rest))
  {
    hide Open, Sealed, Header, ReadInt24, Zeros, Padding;
    HeaderLength(|content|);
    var (wire, next) := Seal(c, k, h, |content|, content);
    FrameOpens(c, k, h, wire + rest, content, next, rest, Header(|content|), Zeros(Padding(|content|)));
  }

  // ---------------------------------------------------------------- frames that were tampered with

  /** Two inputs that the hash, cut to a MAC, does not tell apart. */
  ghost predicate Collide(c: Suite, x: seq<byte>, y: seq<byte>) {
    x != y && c.keccak(x)[..16] == c.keccak(y)[..16]
  }

  lemma XorInjective(a: seq<byte>, x: seq<byte>, y: seq<byte>)
    requires |a| <= |x| && |a| <= |y| && Xor(a, x) == Xor(a, y)
    ensures x[..|a|] == y[..|a|]
  {
    forall i | 0 <= i < |a| ensures x[i] == y[i] {
      assert Xor(a, x)[i] == Xor(a, y)[i];
    }
  }

  lemma XorBinds(a: seq<byte>, b: seq<byte>, x: seq<byte>)
    requires |a| == |b| <= |x| && Xor(a, x) == Xor(b, x)
    ensures a == b
  {
    forall i | 0 <= i < |a| ensures a[i] == b[i] {
      assert Xor(a, x)[i] == Xor(b, x)[i];
    }
  }

  /** A MAC tells apart what is authenticated, the state it is authenticated in, and the block of the key, or the hash collides. */
  lemma MacTells(c: Suite, key: seq<byte>, mac: seq<byte>, seed: seq<byte>, key': seq<byte>, mac': seq<byte>, seed': seq<byte>)
    requires |mac| == |mac'| && |seed| >= 16 && |seed'| >= 16
    requires UpdateMac(c, key, mac, seed).1 == UpdateMac(c, key', mac', seed').1
    ensures Collide(c, UpdateMac(c, key, mac, seed).0, UpdateMac(c, key', mac', seed').0)
            || (mac == mac'
                && (key == key' ==> seed[..16] == seed'[..16])
                && (seed == seed' ==> c.aes(key, c.keccak(mac)[..16]) == c.aes(key', c.keccak(mac)[..16])))
  {
    var a, a' := c.aes(key, c.keccak(mac)[..16]), c.aes(key', c.keccak(mac')[..16]);
    if mac + Xor(a, seed) == mac' + Xor(a', seed') {
      assert mac == (mac + Xor(a, seed))[..|mac|] == mac';
      assert Xor(a, seed) == (mac + Xor(a, seed))[|mac|..] == Xor(a', seed');
      if key == key' {
        XorInjective(a, seed, seed');
      }
      if seed == seed' {
        XorBinds(a, a', seed);
      }
    }
  }

  /** A frame whose header MAC was changed, or whose frame MAC was and nothing before it, is refused. */
  lemma ForgedMac(c: Suite, k: Keys, h: Half, content: seq<byte>, forged: seq<byte>)
    requires |content| <= MAX_UINT24
    ensures var wire := Seal(c, k, h, |content|, content).0; var n := |wire|;
            && n >= 48
            && (|forged| >= 32 && forged[..16] == wire[..16] && forged[16..32] != wire[16..32] ==>
                  Open(c, k, h, forged) == Err(BadHeaderMac))
            && (|forged| >= n && forged[..n - 16] == wire[..n - 16] && forged[n - 16..n] != wire[n - 16..] ==>
                  Open(c, k, h, forged) == Err(BadFrameMac))
  {
    hide UpdateMac, XorKeyStream, Header, ReadInt24, Zeros, Padding;
    var header, padded := Header(|content|), content + Zeros(Padding(|content|));
    var head := XorKeyStream(c, k.aes, h.pos, header);
    var (mac1, headMac) := UpdateMac(c, k.mac, h.mac, head);
    var body := XorKeyStream(c, k.aes, h.pos + 16, padded);
    var (mac2, frameMac) := UpdateMac(c, k.mac, mac1 + body, c.keccak(mac1 + body));
    FrameParts(head, headMac, body, frameMac, []);
    var wire := Seal(c, k, h, |content|, content).0;
    var n := |wire|;
    assert wire + [] == wire;
    KeyStreamCancels(c, k.aes, h.pos, header);
    HeaderLength(|content|);
    if |forged| >= n && forged[..n - 16] == wire[..n - 16] {
      var same := forged[..n - 16];
      assert forged[..16] == same[..16] == head && forged[16..32] == same[16..32] == headMac;
      assert forged[32..][..|body|] == same[32..] == body;
      assert forged[32..][|body|..|body| + 16] == forged[n - 16..n] && wire[n - 16..] == frameMac;
    }
  }

  /** A frame whose header or body was changed under its MAC is refused, or the hash collides on what was changed. */
  lemma ForgedBytes(c: Suite, k: Keys, h: Half, content: seq<byte>, forged: seq<byte>) returns (x: seq<byte>, y: seq<byte>)
    requires |content| <= MAX_UINT24
    ensures var wire := Seal(c, k, h, |content|, content).0; var n := |wire|;
            && n >= 48
            && (|forged| >= 32 && forged[..16] != wire[..16] && forged[16..32] == wire[16..32] ==>
                  Open(c, k, h, forged) == Err(BadHeaderMac) || Collide(c, x, y))
            && (|forged| >= n && forged[..32] == wire[..32] && forged[32..n - 16] != wire[32..n - 16] && forged[n - 16..n] == wire[n - 16..] ==>
                  Open(c, k, h, forged) == Err(BadFrameMac) || Collide(c, x, y))
  {
    hide UpdateMac, XorKeyStream, Header, ReadInt24, Zeros, Padding, Collide;
    var header, padded := Header(|content|), content + Zeros(Padding(|content|));
    var head := XorKeyStream(c, k.aes, h.pos, header);
    var (mac1, headMac) := UpdateMac(c, k.mac, h.mac, head);
    var body := XorKeyStream(c, k.aes, h.pos + 16, padded);
    var (mac2, frameMac) := UpdateMac(c, k.mac, mac1 + body, c.keccak(mac1 + body));
    FrameParts(head, headMac, body, frameMac, []);
    var wire := Seal(c, k, h, |content|, content).0;
    var n := |wire|;
    assert wire + [] == wire;
    KeyStreamCancels(c, k.aes, h.pos, header);
    HeaderLength(|content|);
    x, y := [], [];
    if |forged| >= 32 && forged[..16] != head && forged[16..32] == headMac {
      x, y := UpdateMac(c, k.mac, h.mac, head).0, UpdateMac(c, k.mac, h.mac, forged[..16]).0;
      if UpdateMac(c, k.mac, h.mac, forged[..16]).1 == headMac {
        MacTells(c, k.mac, h.mac, head, k.mac, h.mac, forged[..16]);
        assert head[..16] == head && forged[..16][..16] == forged[..16];
      }
    } else if |forged| >= n && forged[..32] == wire[..32] && forged[n - 16..n] == frameMac {
      var body' := forged[32..n - 16];
      var (next, tag) := UpdateMac(c, k.mac, mac1 + body', c.keccak(mac1 + body'));
      x, y := mac2, next;
      assert forged[..16] == forged[..32][..16] == head && forged[16..32] == forged[..32][16..] == headMac;
      assert forged[32..][..|body|] == body' && forged[32..][|body|..|body| + 16] == forged[n - 16..n];
      if tag == frameMac && body' != body {
        MacTells(c, k.mac, mac1 + body, c.keccak(mac1 + body), k.mac, mac1 + body', c.keccak(mac1 + body'));
        assert (mac1 + body)[|mac1|..] == body && (mac1 + body')[|mac1|..] == body';
      }
    }
  }

  /** Of a frame that is cut short the reader makes nothing. */
  lemma Truncated(c: Suite, k: Keys, h: Half, content: seq<byte>, n: nat)
    requires |content| <= MAX_UINT24 && n < |Seal(c, k, h, |content|, content).0|
    ensures Open(c, k, h, Seal(c, k, h, |content|, content).0[..n]) == Err(ShortRead)
  {
    hide UpdateMac, XorKeyStream, Header, ReadInt24, Zeros, Padding;
    var header, padded := Header(|content|), content + Zeros(Padding(|content|));
    var head := XorKeyStream(c, k.aes, h.pos, header);
    var (mac1, headMac) := UpdateMac(c, k.mac, h.mac, head);
    var body := XorKeyStream(c, k.aes, h.pos + 16, padded);
    var (mac2, frameMac) := UpdateMac(c, k.mac, mac1 + body, c.keccak(mac1 + body));
    FrameParts(head, headMac, body, frameMac, []);
    var wire := Seal(c, k, h, |content|, content).0;
    assert wire + [] == wire;
    KeyStreamCancels(c, k.aes, h.pos, header);
    HeaderLength(|content|);
    if n >= 32 {
      assert wire[..n][..16] == head && wire[..n][16..32] == headMac;
    }
  }

  /** What whoever knows the key stream finds in a frame: the header, and the content padded to a multiple of the block size. */
  lemma FrameLayout(c: Suite, k: Keys, h: Half, content: seq<byte>)
    requires |content| <= MAX_UINT24
    ensures var wire := Seal(c, k, h, |content|, content).0; var n := |wire|;
            && n >= 48 && n % 16 == 0 && n < |content| + 64
            && XorKeyStream(c, k.aes, h.pos, wire[..16]) == PutInt24(|content|) + [0xC2, 0x80, 0x80] + Zeros(10)
            && XorKeyStream(c, k.aes, h.pos + 16, wire[32..n - 16]) == content + Zeros(n - 48 - |content|)
  {
    hide UpdateMac, XorKeyStream, PutInt24, Zeros;
    var header, padded := Header(|content|), content + Zeros(Padding(|content|));
    var head := XorKeyStream(c, k.aes, h.pos, header);
    var (mac1, headMac) := UpdateMac(c, k.mac, h.mac, head);
    var body := XorKeyStream(c, k.aes, h.pos + 16, padded);
    var (mac2, frameMac) := UpdateMac(c, k.mac, mac1 + body, c.keccak(mac1 + body));
    FrameParts(head, headMac, body, frameMac, []);
    var wire := Seal(c, k, h, |content|, content).0;
    assert wire + [] == wire;
    assert wire[32..][..|body|] == wire[32..|wire| - 16];
    KeyStreamCancels(c, k.aes, h.pos, header);
    KeyStreamCancels(c, k.aes, h.pos + 16, padded);
  }

  lemma FrameParts(head: seq<byte>, headMac: seq<byte>, body: seq<byte>, frameMac: seq<byte>, rest: seq<byte>)
    requires |head| == |headMac| == |frameMac| == 16
    ensures var wire := head + headMac + body + frameMac + rest;
            && |wire| >= 32 && wire[..16] == head && wire[16..32] == headMac
            && |wire[32..]| >= |body| + 16 && wire[32..][..|body|] == body
            && wire[32..][|body|..|body| + 16] == frameMac && wire[32..][|body| + 16..] == rest
  {
    var wire := head + headMac + body + frameMac + rest;
    assert wire[32..] == body + frameMac + rest;
  }

  lemma HeaderLength(fsize: nat)
    requires fsize <= MAX_UINT24
    ensures ReadInt24(Header(fsize)) == fsize
  {
    hide ReadInt24, PutInt24;
    assert Header(fsize) == PutInt24(fsize) + ([0xC2, 0x80, 0x80] + Zeros(10));
    Int24RoundTrip(fsize, [0xC2, 0x80, 0x80] + Zeros(10));
  }

  // ---------------------------------------------------------------- one message

  /** What `WriteMsg` puts on the wire, and the state it leaves; nothing is written on an error. */
  function Write(c: Suite, k: Keys, snappy: bool, h: Half, msg: Msg): (r: Result<(seq<byte>, Half)>)
    requires msg.Typed()
  {
    if snappy && msg.size > MAX_UINT24 then Err(TooLarge)
    else
      var payload := if snappy then c.compress(msg.payload) else msg.payload;
      var size := if snappy then |payload| % UINT32 else msg.size;
      var fsize := (|EncodeUint(msg.code)| + size) % UINT32;
      if fsize > MAX_UINT24 then Err(Overflow)
      else Ok(Seal(c, k, h, fsize, EncodeUint(msg.code) + payload))
  }

  /** What `ReadMsg` makes of the bytes on the wire: nothing, if they are no frame. */
  function Read(c: Suite, k: Keys, snappy: bool, h: Half, wire: seq<byte>): (r: Result<(Msg, Half, seq<byte>)>)
  {
    match Open(c, k, h, wire)
    case Err(e) => Err(e)
    case Ok((content, next, rest)) =>
      match DecodeUint(content)
      case Err(e) => Err(e)
      case Ok((code, payload)) =>
        if !snappy then Ok((Msg(code, |payload|, payload), next, rest))
        else
          match c.plainLen(payload)
          case Err(e) => Err(e)
          case Ok(size) =>
            if size > MAX_UINT24 then Err(TooLarge)
            else
              match c.decompress(payload)
              case Err(e) => Err(e)
              case Ok(plain) => Ok((Msg(code, size, plain), next, rest))
  }

  /** The limits on a message whose size field is the size of its payload. */
  ghost predicate InLimit(c: Suite, snappy: bool, msg: Msg) {
    && msg.code < UINT64 && msg.size == |msg.payload|
    && |msg.payload| <= MAX_UINT24
    && (msg.code < UINT64 ==> |EncodeUint(msg.code)| + |if snappy then c.compress(msg.payload) else msg.payload| <= MAX_UINT24)
  }

  lemma WriteOk(c: Suite, k: Keys, snappy: bool, h: Half, msg: Msg)
    requires InLimit(c, snappy, msg)
    ensures msg.Typed() && Write(c, k, snappy, h, msg).Ok?
  {
    hide EncodeUint, Seal;
  }

  lemma ReadWrite(c: Suite, k: Keys, snappy: bool, h: Half, msg: Msg, rest: seq<byte>)
    requires Lawful(c) && InLimit(c, snappy, msg)
    ensures msg.Typed() && Write(c, k, snappy, h, msg).Ok?
    ensures var (wire, next) := Write(c, k, snappy, h, msg).value;
            Read(c, k, snappy, h, wire + rest) == Ok((msg, next, rest))
  {
    hide Open, Seal, EncodeUint, DecodeUint;
    var payload := if snappy then c.compress(msg.payload) else msg.payload;
    var content := EncodeUint(msg.code) + payload;
    OpenSeal(c, k, h, content, rest);
    CodeRoundTrip(msg.code, payload);
  }

  /**
   What the reader says to a message that was changed on its way: as long as the hash does not collide, the
   MAC of whatever was changed is found to be wrong; and a part of a message is not read at all.
   */
  lemma ReadTampered(c: Suite, k: Keys, snappy: bool, h: Half, msg: Msg, forged: seq<byte>) returns (x: seq<byte>, y: seq<byte>)
    requires InLimit(c, snappy, msg)
    ensures msg.Typed() && Write(c, k, snappy, h, msg).Ok?
    ensures var wire := Write(c, k, snappy, h, msg).value.0; var n := |wire|;
            && n >= 48
            && (|forged| >= 32 && (forged[..16] == wire[..16] <==> forged[16..32] != wire[16..32]) ==>
                  Read(c, k, snappy, h, forged) == Err(BadHeaderMac) || (forged[..16] != wire[..16] && Collide(c, x, y)))
            && (|forged| >= n && forged[..32] == wire[..32]
                && (forged[32..n - 16] == wire[32..n - 16] <==> forged[n - 16..n] != wire[n - 16..]) ==>
                  Read(c, k, snappy, h, forged) == Err(BadFrameMac) || (forged[32..n - 16] != wire[32..n - 16] && Collide(c, x, y)))
            && (|forged| < n && forged == wire[..|forged|] ==> Read(c, k, snappy, h, forged) == Err(ShortRead))
  {
    hide Open, Seal, EncodeUint, DecodeUint, Collide;
    WriteOk(c, k, snappy, h, msg);
    var content := EncodeUint(msg.code) + if snappy then c.compress(msg.payload) else msg.payload;
    var wire := Seal(c, k, h, |content|, content).0;
    var n := |wire|;
    ForgedMac(c, k, h, content, forged);
    x, y := ForgedBytes(c, k, h, content, forged);
    if |forged| < n && forged == wire[..|forged|] {
      Truncated(c, k, h, content, |forged|);
    }
    if |forged| >= n && forged[..32] == wire[..32] && forged[32..n - 16] == wire[32..n - 16] {
      assert forged[..n - 16] == forged[..32] + forged[32..n - 16] == wire[..32] + wire[32..n - 16] == wire[..n - 16];
    }
  }

  /**
   Which messages the writer accepts, of those whose size field is the size of their payload: the ones
   within the limit, and without compression all those whose frame size wraps around in 32 bits.
   Compressed messages are within the limit before compression, so that what wraps is what compression
   makes of them.
   */
  lemma WriteAccepts(c: Suite, k: Keys, snappy: bool, h: Half, msg: Msg)
    requires msg.Typed() && msg.size == |msg.payload|
    ensures !snappy ==>
              (Write(c, k, snappy, h, msg).Ok? <==> InLimit(c, snappy, msg) || |EncodeUint(msg.code)| + msg.size >= UINT32)
    ensures snappy ==>
              (Write(c, k, snappy, h, msg).Ok? <==>
                 msg.size <= MAX_UINT24
                 && (|EncodeUint(msg.code)| + |c.compress(msg.payload)| % UINT32) % UINT32 <= MAX_UINT24)
    ensures snappy && |c.compress(msg.payload)| < UINT32 ==>
              (Write(c, k, snappy, h, msg).Ok? <==>
                 InLimit(c, snappy, msg)
                 || (msg.size <= MAX_UINT24 && |EncodeUint(msg.code)| + |c.compress(msg.payload)| >= UINT32))
  {
    hide Seal, EncodeUint;
    CodeLength(msg.code);
  }

  /** The frame announces what it carries exactly for the accepted messages whose frame size does not wrap around. */
  lemma FrameAnnounces(c: Suite, k: Keys, h: Half, msg: Msg)
    requires msg.Typed() && msg.size == |msg.payload| && Write(c, k, false, h, msg).Ok?
    ensures var content := EncodeUint(msg.code) + msg.payload;
            Write(c, k, false, h, msg).value == Seal(c, k, h, |content| % UINT32, content)
            && (|content| % UINT32 == |content| <==> InLimit(c, false, msg))
  {
    hide Seal, EncodeUint;
    CodeLength(msg.code);
  }

  lemma CodeLength(code: nat)
    requires code < UINT64
    ensures 1 <= |EncodeUint(code)| <= 9
  {
    NumberOfBigEndian(code);
    SizeBound(BigEndian(code));
  }

  /** An instance: a payload of 2^32 - 1 bytes is announced as a frame of size 0. */
  lemma SizeWraps(c: Suite, k: Keys, h: Half, payload: seq<byte>)
    requires |payload| == UINT32 - 1
    ensures !InLimit(c, false, Msg(1, UINT32 - 1, payload))
    ensures Write(c, k, false, h, Msg(1, UINT32 - 1, payload)) == Ok(Seal(c, k, h, 0, [1] + payload))
  {
    hide Seal;
    var msg := Msg(1, UINT32 - 1, payload);
    assert EncodeUint(1) == [1];
    WriteAccepts(c, k, false, h, msg);
    FrameAnnounces(c, k, h, msg);
  }

  // ---------------------------------------------------------------- a whole direction

  /** What the writer's successive calls put on the wire. */
  function WriteAll(c: Suite, k: Keys, snappy: bool, h: Half, msgs: seq<Msg>): (r: (seq<byte>, Half))
    requires forall m :: m in msgs ==> InLimit(c, snappy, m)
    decreases msgs
  {
    if msgs == [] then ([], h)
    else
      WriteOk(c, k, snappy, h, msgs[0]);
      var (wire, next) := Write(c, k, snappy, h, msgs[0]).value;
      var (more, last) := WriteAll(c, k, snappy, next, msgs[1..]);
      (wire + more, last)
  }

  /** What `n` successive calls of the reader return. */
  function ReadAll(c: Suite, k: Keys, snappy: bool, h: Half, wire: seq<byte>, n: nat): (r: Result<(seq<Msg>, Half, seq<byte>)>)
    decreases n
  {
    if n == 0 then Ok(([], h, wire))
    else
      match Read(c, k, snappy, h, wire)
      case Err(e) => Err(e)
      case Ok((msg, next, rest)) =>
        match ReadAll(c, k, snappy, next, rest, n - 1)
        case Err(e) => Err(e)
        case Ok((more, last, rest')) => Ok(([msg] + more, last, rest'))
  }

  /** Any finite sequence of messages within the limit is read back, in order, and leaves both ends in step. */
  lemma {:induction false} StreamRoundTrip(c: Suite, k: Keys, snappy: bool, h: Half, msgs: seq<Msg>, rest: seq<byte>)
    requires Lawful(c) && forall m :: m in msgs ==> InLimit(c, snappy, m)
    ensures var (wire, last) := WriteAll(c, k, snappy, h, msgs);
            ReadAll(c, k, snappy, h, wire + rest, |msgs|) == Ok((msgs, last, rest))
    decreases msgs
  {
    hide Read, Write, InLimit, Lawful;
    if msgs == [] {
      assert [] + rest == rest;
    } else {
      var (_, last) := WriteAll(c, k, snappy, h, msgs);
      WriteOk(c, k, snappy, h, msgs[0]);
      var (wire, next) := Write(c, k, snappy, h, msgs[0]).value;
      var (more, _) := WriteAll(c, k, snappy, next, msgs[1..]);
      ReadWrite(c, k, snappy, h, msgs[0], more + rest);
      StreamRoundTrip(c, k, snappy, next, msgs[1..], rest);
      assert wire + more + rest == wire + (more + rest);
      assert [msgs[0]] + msgs[1..] == msgs;
    }
  }

  /** Writing in two goes is writing in one. */
  lemma {:induction false} WriteAllSplits(c: Suite, k: Keys, snappy: bool, h: Half, a: seq<Msg>, b: seq<Msg>)
    requires (forall m :: m in a ==> InLimit(c, snappy, m)) && (forall m :: m in b ==> InLimit(c, snappy, m))
    ensures forall m :: m in a + b ==> InLimit(c, snappy, m)
    ensures var (wa, ha) := WriteAll(c, k, snappy, h, a);
            var (wb, hb) := WriteAll(c, k, snappy, ha, b);
            WriteAll(c, k, snappy, h, a + b) == (wa + wb, hb)
    decreases a
  {
    hide Write, InLimit, Lawful;
    if a == [] {
      assert a + b == b;
      var (wb, hb) := WriteAll(c, k, snappy, h, b);
      assert [] + wb == wb;
    } else {
      WriteOk(c, k, snappy, h, a[0]);
      var (wire, next) := Write(c, k, snappy, h, a[0]).value;
      WriteAllSplits(c, k, snappy, next, a[1..], b);
      assert (a + b)[1..] == a[1..] + b;
      var (wa, ha) := WriteAll(c, k, snappy, next, a[1..]);
      var (wb, hb) := WriteAll(c, k, snappy, ha, b);
      assert wire + (wa + wb) == wire + wa + wb;
    }
  }

  // ---------------------------------------------------------------- the connection end

  class FrameRW {
    const c: Suite
    const keys: Keys
    var snappy: bool
    var encPos: nat
    var decPos: nat
    var egressMac: seq<byte>
    var ingressMac: seq<byte>
    var sent: seq<byte>      // what was written to the connection
    var incoming: seq<byte>  // what can still be read from it

    constructor (c: Suite, keys: Keys, egressMac: seq<byte>, ingressMac: seq<byte>)
      ensures this.c == c && this.keys == keys && !snappy && sent == [] && incoming == []
      ensures Tx() == Half(0, egressMac) && Rx() == Half(0, ingressMac)
    {
      this.c, this.keys, snappy := c, keys, false;
      encPos, decPos := 0, 0;
      this.egressMac, this.ingressMac := egressMac, ingressMac;
      sent, incoming := [], [];
    }

    function Tx(): Half
      reads this
    {
      Half(encPos, egressMac)
    }

    function Rx(): Half
      reads this
    {
      Half(decPos, ingressMac)
    }

    /** One write to the stream writer that encrypts to the connection and to the egress MAC. */
    method Tee(bs: seq<byte>)
      modifies this`encPos, this`egressMac, this`sent
      ensures encPos == old(encPos) + |bs|
      ensures egressMac == old(egressMac) + XorKeyStream(c, keys.aes, old(encPos), bs)
      ensures sent == old(sent) + XorKeyStream(c, keys.aes, old(encPos), bs)
    {
      var x := XorKeyStream(c, keys.aes, encPos, bs);
      encPos, egressMac, sent := encPos + |bs|, egressMac + x, sent + x;
    }

    method WriteHeader(fsize: nat)
      requires fsize <= MAX_UINT24
      modifies this`encPos, this`egressMac, this`sent
      ensures var head := XorKeyStream(c, keys.aes, old(encPos), Header(fsize));
              var (mac, headMac) := UpdateMac(c, keys.mac, old(egressMac), head);
              encPos == old(encPos) + 16 && egressMac == mac && sent == old(sent) + (head + headMac)
    {
      var head := XorKeyStream(c, keys.aes, encPos, Header(fsize));
      var (mac, headMac) := UpdateMac(c, keys.mac, egressMac, head);
      encPos, egressMac, sent := encPos + 16, mac, sent + (head + headMac);
    }

    /** The message code, the payload and the padding, each through the stream writer, then the frame MAC. */
    method WriteBody(fsize: nat, ptype: seq<byte>, payload: seq<byte>)
      modifies this`encPos, this`egressMac, this`sent
      ensures var body := XorKeyStream(c, keys.aes, old(encPos), ptype + payload + Zeros(Padding(fsize)));
              var hashed := old(egressMac) + body;
              var (mac, frameMac) := UpdateMac(c, keys.mac, hashed, c.keccak(hashed));
              encPos == old(encPos) + |body| && egressMac == mac && sent == old(sent) + (body + frameMac)
    {
      hide XorKeyStream, UpdateMac, Zeros, Padding;
      var pad := Zeros(Padding(fsize));
      BodySplits(c, keys.aes, encPos, ptype, payload, pad);
      Tee(ptype);
      Tee(payload);
      if Padding(fsize) > 0 {
        Tee(pad);
      }
      ghost var body := XorKeyStream(c, keys.aes, old(encPos), ptype + payload + pad);
      assert egressMac == old(egressMac) + body && sent == old(sent) + body;
      var (mac, frameMac) := UpdateMac(c, keys.mac, egressMac, c.keccak(egressMac));
      egressMac, sent := mac, sent + frameMac;
    }

    method WriteMsg(m: Msg) returns (r: Result<()>)
      requires m.Typed()
      modifies this`encPos, this`egressMac, this`sent
      ensures match Write(c, keys, snappy, old(Tx()), m)
              case Err(e) => r == Err(e) && Tx() == old(Tx()) && sent == old(sent)
              case Ok((wire, next)) => r == Ok(()) && Tx() == next && sent == old(sent) + wire
    {
      hide EncodeUint, XorKeyStream, UpdateMac, Header, Zeros, Padding, Seal;
      var ptype := EncodeUint(m.code);
      var payload, size := m.payload, m.size;
      if snappy {
        if m.size > MAX_UINT24 {
          return Err(TooLarge);
        }
        payload := c.compress(payload);
        size := |payload| % UINT32;
      }
      var fsize := (|ptype| + size) % UINT32;
      if fsize > MAX_UINT24 {
        return Err(Overflow);
      }
      SealParts(c, keys, Tx(), fsize, ptype + payload);
      WriteHeader(fsize);
      WriteBody(fsize, ptype, payload);
      r := Ok(());
    }

    /** Reads and checks one frame. After an error the connection is of no more use. */
    method ReadFrame() returns (r: Result<seq<byte>>)
      modifies this`decPos, this`ingressMac, this`incoming
      ensures match Open(c, keys, old(Rx()), old(incoming))
              case Err(e) => r == Err(e)
              case Ok((content, next, rest)) => r == Ok(content) && Rx() == next && incoming == rest
    {
      hide XorKeyStream, UpdateMac, ReadInt24, Padding;
      if |incoming| < 32 {
        return Err(ShortRead);
      }
      var headbuf := incoming[..32];
      incoming := incoming[32..];
      var (mac1, headMac) := UpdateMac(c, keys.mac, ingressMac, headbuf[..16]);
      ingressMac := mac1;
      assert headbuf[..16] == old(incoming)[..16] && headbuf[16..] == old(incoming)[16..32];
      if headMac != headbuf[16..] {
        return Err(BadHeaderMac);
      }
      var fsize := ReadInt24(XorKeyStream(c, keys.aes, decPos, headbuf[..16]));
      decPos := decPos + 16;
      var rsize := fsize + Padding(fsize);
      if |incoming| < rsize + 16 {
        return Err(ShortRead);
      }
      var framebuf, tag := incoming[..rsize], incoming[rsize..rsize + 16];
      incoming := incoming[rsize + 16..];
      ingressMac := ingressMac + framebuf;
      var (mac2, frameMac) := UpdateMac(c, keys.mac, ingressMac, c.keccak(ingressMac));
      ingressMac := mac2;
      if frameMac != tag {
        return Err(BadFrameMac);
      }
      r := Ok(XorKeyStream(c, keys.aes, decPos, framebuf)[..fsize]);
      decPos := decPos + rsize;
    }

    method ReadMsg() returns (r: Result<Msg>)
      modifies this`decPos, this`ingressMac, this`incoming
      ensures match Read(c, keys, snappy, old(Rx()), old(incoming))
              case Err(e) => r == Err(e)
              case Ok((m, next, rest)) => r == Ok(m) && Rx() == next && incoming == rest
    {
      hide Open, DecodeUint;
      var frame := ReadFrame();
      if frame.Err? {
        return Err(frame.error);
      }
      var decoded := DecodeUint(frame.value);
      if decoded.Err? {
        return Err(decoded.error);
      }
      var (code, payload) := decoded.value;
      if !snappy {
        return Ok(Msg(code, |payload|, payload));
      }
      var size := c.plainLen(payload);
      if size.Err? {
        return Err(size.error);
      }
      if size.value > MAX_UINT24 {
        return Err(TooLarge);
      }
      var plain := c.decompress(payload);
      if plain.Err? {
        return Err(plain.error);
      }
      r := Ok(Msg(code, size.value, plain.value));
    }
  }

  lemma BodySplits(c: Suite, key: seq<byte>, pos: nat, ptype: seq<byte>, payload: seq<byte>, zeros: seq<byte>)
    ensures XorKeyStream(c, key, pos, ptype + payload + zeros) ==
              XorKeyStream(c, key, pos, ptype) + XorKeyStream(c, key, pos + |ptype|, payload)
              + XorKeyStream(c, key, pos + |ptype| + |payload|, zeros)
  {
    KeyStreamSplits(c, key, pos, ptype + payload, zeros);
    KeyStreamSplits(c, key, pos, ptype, payload);
  }

  // ---------------------------------------------------------------- runs

  datatype Action = Send(msg: Msg) | Receive

  /** A writer, a reader, and the bytes in flight from one to the other. */
  datatype Link = Link(tx: Half, rx: Half, wire: seq<byte>)

  ghost predicate Sendable(c: Suite, snappy: bool, actions: seq<Action>) {
    forall a :: a in actions && a.Send? ==> InLimit(c, snappy, a.msg)
  }

  /** A run of sends and receives in any order; a receive on an idle link delivers nothing. */
  ghost function Run(c: Suite, k: Keys, snappy: bool, l: Link, actions: seq<Action>): (r: (Link, seq<Result<Msg>>))
    requires Sendable(c, snappy, actions)
    decreases actions
  {
    if actions == [] then (l, [])
    else if actions[0].Send? then
      WriteOk(c, k, snappy, l.tx, actions[0].msg);
      var (bytes, tx) := Write(c, k, snappy, l.tx, actions[0].msg).value;
      Run(c, k, snappy, Link(tx, l.rx, l.wire + bytes), actions[1..])
    else if l.wire == [] then Run(c, k, snappy, l, actions[1..])
    else
      match Read(c, k, snappy, l.rx, l.wire)
      case Err(e) => (l, [Err(e)])
      case Ok((msg, rx, rest)) =>
        var (last, more) := Run(c, k, snappy, Link(l.tx, rx, rest), actions[1..]);
        (last, [Ok(msg)] + more)
  }

  function Sent(actions: seq<Action>): (msgs: seq<Msg>) {
    if actions == [] then []
    else (if actions[0].Send? then [actions[0].msg] else []) + Sent(actions[1..])
  }

  function Delivered(msgs: seq<Msg>): (rs: seq<Result<Msg>>)
    ensures |rs| == |msgs|
  {
    seq(|msgs|, i requires 0 <= i < |msgs| => Ok(msgs[i]))
  }

  /** The bytes in flight are exactly the frames of `unread`, from the reader's state to the writer's. */
  ghost predicate InStep(c: Suite, k: Keys, snappy: bool, l: Link, unread: seq<Msg>) {
    && (forall m :: m in unread ==> InLimit(c, snappy, m))
    && WriteAll(c, k, snappy, l.rx, unread) == (l.wire, l.tx)
  }

  /**
   In every run over a link that starts in step, every receive succeeds, the messages delivered are
   the ones sent, in order and from the first on, and the link ends in step with the rest in flight.
   */
  lemma {:induction false} RunDeliversInOrder(c: Suite, k: Keys, snappy: bool, l: Link, unread: seq<Msg>, actions: seq<Action>)
      returns (left: seq<Msg>, got: seq<Msg>)
    requires Lawful(c) && InStep(c, k, snappy, l, unread) && Sendable(c, snappy, actions)
    ensures var (last, results) := Run(c, k, snappy, l, actions);
            results == Delivered(got) && got + left == unread + Sent(actions) && InStep(c, k, snappy, last, left)
    decreases actions
  {
    hide Read, Write, InLimit, Lawful;
    if actions == [] {
      left, got := unread, [];
    } else if actions[0].Send? {
      var msg := actions[0].msg;
      WriteOk(c, k, snappy, l.tx, msg);
      var (bytes, tx) := Write(c, k, snappy, l.tx, msg).value;
      WriteAllSplits(c, k, snappy, l.rx, unread, [msg]);
      WriteOne(c, k, snappy, l.tx, msg);
      left, got := RunDeliversInOrder(c, k, snappy, Link(tx, l.rx, l.wire + bytes), unread + [msg], actions[1..]);
      assert unread + [msg] + Sent(actions[1..]) == unread + ([msg] + Sent(actions[1..]));
    } else if l.wire == [] {
      left, got := RunDeliversInOrder(c, k, snappy, l, unread, actions[1..]);
      assert [] + Sent(actions[1..]) == Sent(actions[1..]);
    } else {
      assert unread != [];
      WriteOk(c, k, snappy, l.rx, unread[0]);
      var (bytes, rx) := Write(c, k, snappy, l.rx, unread[0]).value;
      var (rest, _) := WriteAll(c, k, snappy, rx, unread[1..]);
      ReadWrite(c, k, snappy, l.rx, unread[0], rest);
      var more;
      left, more := RunDeliversInOrder(c, k, snappy, Link(l.tx, rx, rest), unread[1..], actions[1..]);
      got := [unread[0]] + more;
      assert Delivered(got) == [Ok(unread[0])] + Delivered(more);
      assert [unread[0]] + (unread[1..] + Sent(actions[1..])) == unread + Sent(actions[1..]);
      assert got + left == [unread[0]] + (more + left);
      assert [] + Sent(actions[1..]) == Sent(actions[1..]);
    }
  }

  lemma WriteOne(c: Suite, k: Keys, snappy: bool, h: Half, msg: Msg)
    requires InLimit(c, snappy, msg)
    ensures msg.Typed() && Write(c, k, snappy, h, msg).Ok?
    ensures WriteAll(c, k, snappy, h, [msg]) == Write(c, k, snappy, h, msg).value
  {
    hide Write, InLimit;
    WriteOk(c, k, snappy, h, msg);
    var (wire, next) := Write(c, k, snappy, h, msg).value;
    assert wire + [] == wire;
  }
}
