/** The packet layer of the remote debugging stub: hexadecimal and escaped data, framing with a
    checksum, and the byte-at-a-time receiver with acknowledgement and retransmission. */
module GdbPacket {

  type Byte = x: int | 0 <= x < 256

  const MAX_PACKET_LENGTH := 4096

  const HASH: Byte := 0x23
  const DOLLAR: Byte := 0x24
  const STAR: Byte := 0x2a
  const PLUS: Byte := 0x2b
  const MINUS: Byte := 0x2d
  const BRACE: Byte := 0x7d

  // ---------------------------------------------------------------------------------------
  // Hexadecimal data

  /** fromhex: anything that is no digit counts as 0. */
  function FromHex(v: Byte): (r: nat)
    ensures r < 16
  {
    if 0x30 <= v <= 0x39 then v - 0x30
    else if 0x41 <= v <= 0x46 then v - 0x41 + 10
    else if 0x61 <= v <= 0x66 then v - 0x61 + 10
    else 0
  }

  function ToHex(v: nat): (r: Byte)
    requires v < 16
    ensures FromHex(r) == v && r != HASH
  {
    if v < 10 then v + 0x30 else v - 10 + 0x61
  }

  /** The digits on the line. */
  const DIGITS := "0123456789abcdef"

  lemma HexDigit(v: nat)
    requires v < 16
    ensures ToHex(v) == DIGITS[v] as int
  {
    if v == 0 {} else if v == 1 {} else if v == 2 {} else if v == 3 {} else if v == 4 {} else if v == 5 {}
    else if v == 6 {} else if v == 7 {} else if v == 8 {} else if v == 9 {} else if v == 10 {} else if v == 11 {}
    else if v == 12 {} else if v == 13 {} else if v == 14 {} else {}
  }

  /** Digits are read in either case, and anything else counts as 0. */
  lemma HexValue(v: nat)
    requires v < 16
    ensures FromHex(DIGITS[v] as int) == v && FromHex(UPPER_DIGITS[v] as int) == v
  {
    if v == 0 {} else if v == 1 {} else if v == 2 {} else if v == 3 {} else if v == 4 {} else if v == 5 {}
    else if v == 6 {} else if v == 7 {} else if v == 8 {} else if v == 9 {} else if v == 10 {} else if v == 11 {}
    else if v == 12 {} else if v == 13 {} else if v == 14 {} else {}
  }

  const UPPER_DIGITS := "0123456789ABCDEF"

  function HexOf(mem: seq<Byte>): seq<Byte> {
    if mem == [] then [] else [ToHex(mem[0] / 16), ToHex(mem[0] % 16)] + HexOf(mem[1..])
  }

  function MemOf(hex: seq<Byte>): seq<Byte> {
    if |hex| < 2 then [] else [FromHex(hex[0]) * 16 + FromHex(hex[1])] + MemOf(hex[2..])
  }

  lemma {:induction false} HexRoundTrip(mem: seq<Byte>)
    ensures MemOf(HexOf(mem)) == mem && |HexOf(mem)| == 2 * |mem| && HASH !in HexOf(mem)
  {
    if mem != [] {
      HexRoundTrip(mem[1..]);
      var h := [ToHex(mem[0] / 16), ToHex(mem[0] % 16)];
      assert HexOf(mem)[2..] == HexOf(mem[1..]) && HexOf(mem)[..2] == h;
    }
  }

  lemma {:induction false} HexOfConcat(a: seq<Byte>, b: seq<Byte>)
    ensures HexOf(a + b) == HexOf(a) + HexOf(b)
  {
    if a == [] {
      assert a + b == b;
    } else {
      HexOfConcat(a[1..], b);
      assert (a + b)[1..] == a[1..] + b;
    }
  }

  method MemToHex(mem: seq<Byte>) returns (hex: seq<Byte>)
    ensures hex == HexOf(mem)
  {
    hex := [];
    for i := 0 to |mem|
      invariant hex == HexOf(mem[..i])
    {
      var c := mem[i];
      hex := hex + [ToHex(c / 16), ToHex(c % 16)];
      HexOfConcat(mem[..i], [c]);
      assert mem[..i + 1] == mem[..i] + [c];
      assert HexOf([c]) == [ToHex(c / 16), ToHex(c % 16)];
    }
    assert mem[..|mem|] == mem;
  }

  lemma MemOfStep(hex: seq<Byte>)
    requires |hex| >= 2
    ensures MemOf(hex) == [FromHex(hex[0]) * 16 + FromHex(hex[1])] + MemOf(hex[2..])
  {
  }

  /** Reads `len` bytes; from the text of a memory it gives the memory back. */
  method HexToMem(hex: seq<Byte>, len: nat) returns (mem: seq<Byte>)
    requires |hex| >= 2 * len
    ensures |mem| == len && mem + MemOf(hex[2 * len..]) == MemOf(hex)
    ensures forall was: seq<Byte> | |was| == len && hex == HexOf(was) :: mem == was
  {
    hide MemOf, HexOf, FromHex;
    mem := [];
    for i := 0 to len
      invariant |mem| == i && mem + MemOf(hex[2 * i..]) == MemOf(hex)
    {
      var b := FromHex(hex[2 * i]) * 16 + FromHex(hex[2 * i + 1]);
      ghost var rest := hex[2 * i..];
      MemOfStep(rest);
      assert rest[2..] == hex[2 * (i + 1)..];
      assert mem + ([b] + MemOf(rest[2..])) == (mem + [b]) + MemOf(rest[2..]);
      mem := mem + [b];
    }
    forall was: seq<Byte> | |was| == len && hex == HexOf(was)
      ensures mem == was
    {
      HexRoundTrip(was);
      assert |MemOf(hex)| == |mem| && mem == MemOf(hex)[..len];
    }
  }

  // ---------------------------------------------------------------------------------------
  // Escaped data

  predicate Special(c: Byte) {
    c == HASH || c == DOLLAR || c == STAR || c == BRACE
  }

  /** c ^ 0x20 */
  function Flip(c: Byte): Byte {
    if (c / 32) % 2 == 1 then c - 32 else c + 32
  }

  /** Only bit 5 changes. */
  lemma FlipIsBit5(c: Byte)
    ensures Flip(c) % 32 == c % 32 && Flip(c) / 64 == c / 64 && Flip(c) / 32 % 2 != c / 32 % 2
  {
  }

  function EscapeByte(c: Byte): seq<Byte> {
    if Special(c) then [BRACE, Flip(c)] else [c]
  }

  function Escape(mem: seq<Byte>): seq<Byte> {
    if mem == [] then [] else EscapeByte(mem[0]) + Escape(mem[1..])
  }

  function Unescape(s: seq<Byte>): seq<Byte> {
    if s == [] then []
    else if s[0] == BRACE && |s| >= 2 then [Flip(s[1])] + Unescape(s[2..])
    else [s[0]] + Unescape(s[1..])
  }

  /** Escaping is undone, and leaves nothing in the text that means something to the framing. */
  lemma {:induction false} EscapeRoundTrip(mem: seq<Byte>)
    ensures Unescape(Escape(mem)) == mem
    ensures HASH !in Escape(mem) && DOLLAR !in Escape(mem) && STAR !in Escape(mem)
  {
    if mem != [] {
      EscapeRoundTrip(mem[1..]);
      assert Escape(mem)[|EscapeByte(mem[0])|..] == Escape(mem[1..]);
    }
  }

  /** Bytes that mean nothing to the framing travel as they are. */
  lemma {:induction false} EscapePlain(mem: seq<Byte>)
    requires HASH !in mem && DOLLAR !in mem && STAR !in mem && BRACE !in mem
    ensures Escape(mem) == mem
  {
    if mem != [] {
      EscapePlain(mem[1..]);
    }
  }

  lemma {:induction false} EscapeConcat(a: seq<Byte>, b: seq<Byte>)
    ensures Escape(a + b) == Escape(a) + Escape(b)
  {
    hide EscapeByte;
    if a == [] {
      assert a + b == b;
    } else {
      EscapeConcat(a[1..], b);
      assert (a + b)[1..] == a[1..] + b;
    }
  }

  method MemToX(mem: seq<Byte>) returns (buf: seq<Byte>)
    ensures buf == Escape(mem)
  {
    buf := [];
    for i := 0 to |mem|
      invariant buf == Escape(mem[..i])
    {
      var c := mem[i];
      if Special(c) {
        buf := buf + [BRACE, Flip(c)];
      } else {
        buf := buf + [c];
      }
      EscapeConcat(mem[..i], [c]);
      assert mem[..i + 1] == mem[..i] + [c];
      assert Escape([c]) == EscapeByte(c);
    }
    assert mem[..|mem|] == mem;
  }

  // ---------------------------------------------------------------------------------------
  // Frames

  function Sum(s: seq<Byte>): nat {
    if s == [] then 0 else Sum(s[..|s| - 1]) + s[|s| - 1]
  }

  function FrameWith(payload: seq<Byte>, high: Byte, low: Byte): seq<Byte> {
    [DOLLAR] + payload + [HASH, high, low]
  }

  function Frame(payload: seq<Byte>): seq<Byte> {
    var csum := Sum(payload);
    FrameWith(payload, ToHex(csum / 16 % 16), ToHex(csum % 16))
  }

  function Digits(high: Byte, low: Byte): nat {
    FromHex(high) * 16 + FromHex(low)
  }

  /** The sum of a text, byte by byte. */
  lemma SumIs(s: seq<Byte>, b: Byte)
    ensures Sum([]) == 0 && Sum(s + [b]) == Sum(s) + b
  {
    assert (s + [b])[..|s|] == s;
  }

  lemma {:induction false} SumUpdate(s: seq<Byte>, i: nat, b: Byte)
    requires i < |s|
    ensures Sum(s[i := b]) == Sum(s) - s[i] + b
  {
    var n := |s| - 1;
    if i == n {
      assert s[i := b][..n] == s[..n];
    } else {
      SumUpdate(s[..n], i, b);
      assert s[i := b][..n] == s[..n][i := b];
    }
  }

  /** A single damaged byte always shows in the checksum. */
  lemma OneByteShows(s: seq<Byte>, i: nat, b: Byte)
    requires i < |s| && b != s[i]
    ensures Sum(s[i := b]) % 256 != Sum(s) % 256
  {
    SumUpdate(s, i, b);
  }

  // ---------------------------------------------------------------------------------------
  // The receiver, on values

  datatype State = Idle | GetLine | Checksum1 | Checksum2

  /** `last` is the packet sent last, `pending` while it is not acknowledged; `out` is what was written to
      the line, `delivered` the packets handed to the command interpreter. */
  datatype Link = Link(state: State, line: seq<Byte>, csum: nat, last: seq<Byte>, pending: bool, running: bool,
                       out: seq<Byte>, delivered: seq<seq<Byte>>)

  /** gdb_read_byte */
  function Step(k: Link, ch: Byte): Link {
    if k.pending && ch != DOLLAR then
      k.(out := k.out + (if ch == MINUS then k.last else []), pending := ch != PLUS)
    else
      var d := k.(pending := false);
      if d.running then d.(running := false)
      else match d.state
        case Idle => if ch == DOLLAR then d.(state := GetLine, line := []) else d
        case GetLine =>
          if ch == HASH then d.(state := Checksum1)
          else if |d.line| >= MAX_PACKET_LENGTH - 1 then d.(state := Idle)
          else d.(line := d.line + [ch])
        case Checksum1 => d.(state := Checksum2, csum := FromHex(ch) * 16)
        case Checksum2 =>
          var csum := d.csum + FromHex(ch);
          if csum == Sum(d.line) % 256
          then d.(state := Idle, csum := csum, out := d.out + [PLUS], delivered := d.delivered + [d.line])
          else d.(state := Idle, csum := csum, out := d.out + [MINUS])
  }

  function Feed(k: Link, s: seq<Byte>): Link
    decreases |s|
  {
    if s == [] then k else Feed(Step(k, s[0]), s[1..])
  }

  lemma {:induction false} FeedConcat(k: Link, a: seq<Byte>, b: seq<Byte>)
    ensures Feed(k, a + b) == Feed(Feed(k, a), b)
    decreases |a|
  {
    if a == [] {
      assert a + b == b;
    } else {
      assert (a + b)[0] == a[0] && (a + b)[1..] == a[1..] + b;
      FeedConcat(Step(k, a[0]), a[1..], b);
    }
  }

  /** A payload the receiver can take. */
  predicate Plain(p: seq<Byte>) {
    HASH !in p && |p| <= MAX_PACKET_LENGTH - 1
  }

  lemma {:induction false} FeedPayload(k: Link, p: seq<Byte>)
    requires k.state == GetLine && !k.pending && !k.running && Plain(k.line + p)
    ensures Feed(k, p) == k.(line := k.line + p)
    decreases |p|
  {
    if p == [] {
      assert k.line + p == k.line;
    } else {
      assert (k.line + p)[|k.line|] == p[0];
      assert (k.line + [p[0]]) + p[1..] == k.line + p;
      FeedPayload(Step(k, p[0]), p[1..]);
    }
  }

  lemma FeedTrailer(k: Link, high: Byte, low: Byte)
    requires k.state == GetLine && !k.pending && !k.running
    ensures var good := Digits(high, low) == Sum(k.line) % 256;
      Feed(k, [HASH, high, low]) == k.(state := Idle, csum := Digits(high, low),
        out := k.out + [if good then PLUS else MINUS], delivered := k.delivered + if good then [k.line] else [])
  {
    hide Sum;
    var k1 := Step(k, HASH);
    var k2 := Step(k1, high);
    assert [HASH, high, low][1..] == [high, low] && [high, low][1..] == [low] && [low][1..] == [];
    calc {
      Feed(k, [HASH, high, low]);
      Feed(k1, [high, low]);
      Feed(k2, [low]);
      Step(k2, low);
    }
    assert k.delivered + [] == k.delivered;
  }

  /** A receiver at rest takes a well-formed frame whole, even one that cuts off a reply not yet
      acknowledged, and delivers its payload exactly when the two digits are its checksum. */
  lemma FrameTaken(k: Link, p: seq<Byte>, high: Byte, low: Byte)
    requires k.state == Idle && !k.running && Plain(p)
    ensures var good := Digits(high, low) == Sum(p) % 256;
      Feed(k, FrameWith(p, high, low)) == k.(pending := false, line := p, csum := Digits(high, low),
        out := k.out + [if good then PLUS else MINUS], delivered := k.delivered + if good then [p] else [])
  {
    hide Sum, Digits, Feed;
    var k1 := k.(pending := false, state := GetLine, line := []);
    FeedConcat(k, [DOLLAR] + p, [HASH, high, low]);
    FeedConcat(k, [DOLLAR], p);
    FeedOne(k, DOLLAR);
    assert [] + p == p;
    FeedPayload(k1, p);
    FeedTrailer(k1.(line := p), high, low);
  }

  lemma FeedOne(k: Link, ch: Byte)
    ensures Feed(k, [ch]) == Step(k, ch)
  {
    assert [ch][1..] == [];
  }

  lemma TwoNibbles(x: nat)
    ensures x / 16 % 16 * 16 + x % 16 == x % 256
  {
    var q := x / 16;
    assert x == 256 * (q / 16) + (q % 16 * 16 + x % 16);
  }

  lemma FrameDigits(p: seq<Byte>)
    ensures var csum := Sum(p); Digits(ToHex(csum / 16 % 16), ToHex(csum % 16)) == csum % 256
  {
    hide Sum, FromHex, ToHex;
    TwoNibbles(Sum(p));
  }

  /** A byte that arrives while the guest runs stops it, and means nothing else. */
  lemma RunningStops(k: Link, ch: Byte, s: seq<Byte>)
    requires k.running && !k.pending
    ensures Feed(k, [ch] + s) == Feed(k.(running := false), s)
  {
    hide Sum;
    assert ([ch] + s)[1..] == s;
  }

  /** Bytes that answer nothing are dropped: those between frames, and those that are no acknowledgement while one is
      waited for. */
  lemma NoiseIgnored(k: Link, ch: Byte)
    requires ch != DOLLAR && !(k.pending && (ch == PLUS || ch == MINUS))
    requires k.pending || (k.state == Idle && !k.running)
    ensures Feed(k, [ch]) == k
  {
    FeedOne(k, ch);
    assert k.out + [] == k.out;
  }

  /** Whatever the receiver was in the middle of, the end of a frame brings it to rest. */
  lemma TrailerRests(k: Link, high: Byte, low: Byte)
    requires !k.running && !k.pending && high != DOLLAR && low != DOLLAR
    ensures var r := Feed(k, [HASH, high, low]); r.state == Idle && !r.running && !r.pending
  {
    hide Sum;
    var k1 := Step(k, HASH);
    var k2 := Step(k1, high);
    assert [HASH, high, low][1..] == [high, low] && [high, low][1..] == [low] && [low][1..] == [];
    calc {
      Feed(k, [HASH, high, low]);
      Feed(k1, [high, low]);
      Feed(k2, [low]);
      Step(k2, low);
    }
  }

  /** After any damage on the line, the next whole frame behind the end of one is delivered. */
  lemma Resynchronises(k: Link, high: Byte, low: Byte, p: seq<Byte>)
    requires !k.running && !k.pending && high != DOLLAR && low != DOLLAR && Plain(p)
    ensures var r := Feed(k, [HASH, high, low]); Feed(k, [HASH, high, low] + Frame(p)).delivered == r.delivered + [p]
  {
    hide Feed, Sum, Digits, Plain;
    var r := Feed(k, [HASH, high, low]);
    TrailerRests(k, high, low);
    FeedConcat(k, [HASH, high, low], Frame(p));
    FrameDigits(p);
    FrameTaken(r, p, ToHex(Sum(p) / 16 % 16), ToHex(Sum(p) % 16));
  }

  // ---------------------------------------------------------------------------------------
  // Only such payloads are delivered

  predicate AllPlain(packets: seq<seq<Byte>>) {
    forall i | 0 <= i < |packets| :: Plain(packets[i])
  }

  lemma StepPlain(k: Link, ch: Byte)
    requires Plain(k.line) && AllPlain(k.delivered)
    ensures Plain(Step(k, ch).line) && AllPlain(Step(k, ch).delivered)
  {
  }

  lemma {:induction false} FeedPlain(k: Link, s: seq<Byte>)
    requires Plain(k.line) && AllPlain(k.delivered)
    ensures Plain(Feed(k, s).line) && AllPlain(Feed(k, s).delivered)
    decreases |s|
  {
    if s != [] {
      hide Step, Plain;
      StepPlain(k, s[0]);
      FeedPlain(Step(k, s[0]), s[1..]);
    }
  }

  /** The frame of a payload is delivered, and acknowledged, exactly when the payload is free of '#' and
      fits the line buffer. */
  lemma DeliveredIff(k: Link, p: seq<Byte>)
    requires k.state == Idle && !k.running && Plain(k.line) && AllPlain(k.delivered)
    ensures Plain(p) <==> Feed(k, Frame(p)).delivered == k.delivered + [p]
    ensures Plain(p) ==> Feed(k, Frame(p)).out == k.out + [PLUS] && Feed(k, Frame(p)).state == Idle
  {
    hide Feed, Sum, Digits, Plain;
    FeedPlain(k, Frame(p));
    FrameDigits(p);
    assert (k.delivered + [p])[|k.delivered|] == p;
    if Plain(p) {
      FrameTaken(k, p, ToHex(Sum(p) / 16 % 16), ToHex(Sum(p) % 16));
    }
  }

  /** A frame with one damaged payload byte is refused. */
  lemma DamageRefused(k: Link, p: seq<Byte>, i: nat, b: Byte)
    requires k.state == Idle && !k.running && i < |p| && b != p[i] && Plain(p[i := b])
    ensures var f := Feed(k, FrameWith(p[i := b], ToHex(Sum(p) / 16 % 16), ToHex(Sum(p) % 16)));
      f.delivered == k.delivered && f.out == k.out + [MINUS]
  {
    hide Feed, Sum, Digits, Plain;
    FrameDigits(p);
    OneByteShows(p, i, b);
    FrameTaken(k, p[i := b], ToHex(Sum(p) / 16 % 16), ToHex(Sum(p) % 16));
    assert k.delivered + [] == k.delivered;
  }

  lemma {:induction false} EscapeLength(mem: seq<Byte>)
    ensures |Escape(mem)| <= 2 * |mem|
  {
    if mem != [] {
      EscapeLength(mem[1..]);
    }
  }

  /** A transfer reply carries a letter and as many bytes as the stub puts in one reply. Whatever the
      bytes are, the frame is taken, and the bytes come out as they were. */
  lemma TransferTravels(k: Link, tag: Byte, mem: seq<Byte>)
    requires k.state == Idle && !k.running && Plain(k.line) && AllPlain(k.delivered)
    requires tag != HASH && |mem| <= (MAX_PACKET_LENGTH - 5) / 2
    ensures var p := [tag] + Escape(mem);
      Feed(k, Frame(p)).delivered == k.delivered + [p] && Unescape(p[1..]) == mem
  {
    hide Feed, Frame, Escape, Unescape;
    EscapeRoundTrip(mem);
    EscapeLength(mem);
    var p := [tag] + Escape(mem);
    assert p[1..] == Escape(mem) && Plain(p);
    DeliveredIff(k, p);
  }

  // ---------------------------------------------------------------------------------------
  // Retransmission

  function Times(s: seq<Byte>, n: nat): seq<Byte> {
    if n == 0 then [] else s + Times(s, n - 1)
  }

  /** `n` negative acknowledgements and a positive one. */
  function Nacks(n: nat): seq<Byte> {
    if n == 0 then [PLUS] else [MINUS] + Nacks(n - 1)
  }

  lemma Nacked(k: Link, n: nat)
    requires k.pending && n > 0
    ensures Feed(k, Nacks(n)) == Feed(k.(out := k.out + k.last), Nacks(n - 1))
  {
    hide Sum;
    assert Nacks(n)[1..] == Nacks(n - 1);
  }

  /** Every negative acknowledgement sends the last packet once more; the positive one ends it, and
      nothing else of the link changes. */
  lemma {:induction false} Retransmitted(k: Link, n: nat)
    requires k.pending
    ensures Feed(k, Nacks(n)) == k.(out := k.out + Times(k.last, n), pending := false)
    decreases n
  {
    if n == 0 {
      assert k.out + [] == k.out;
      FeedOne(k, PLUS);
    } else {
      hide Step, Feed, Nacks;
      Nacked(k, n);
      Retransmitted(k.(out := k.out + k.last), n - 1);
      assert (k.out + k.last) + Times(k.last, n - 1) == k.out + Times(k.last, n);
    }
  }

  // ---------------------------------------------------------------------------------------
  // The receiver in place

  class GdbState {
    var state: State
    const lineBuf: array<Byte>
    var index: nat
    var csum: nat
    var last: seq<Byte>
    var pending: bool
    var running: bool
    var out: seq<Byte>
    ghost var delivered: seq<seq<Byte>>

    /** When a packet is handed over, its line has been terminated. */
    ghost predicate Valid()
      reads this, lineBuf
    {
      && lineBuf.Length == MAX_PACKET_LENGTH && index <= MAX_PACKET_LENGTH - 1
      && (state == Checksum2 ==> lineBuf[index] == 0)
    }

    ghost function View(): Link
      requires Valid()
      reads this, lineBuf
    {
      Link(state, lineBuf[..index], csum, last, pending, running, out, delivered)
    }

    constructor ()
      ensures Valid() && fresh(lineBuf)
      ensures View() == Link(Idle, [], 0, [], false, true, [], [])
    {
      state, index, csum, last, pending, running, out := Idle, 0, 0, [], false, true, [];
      lineBuf := new Byte[MAX_PACKET_LENGTH];
      delivered := [];
    }

    /** The sum over the line buffer. */
    method LineSum() returns (sum: nat)
      requires Valid()
      ensures sum == Sum(lineBuf[..index])
    {
      sum := 0;
      for i := 0 to index
        invariant sum == Sum(lineBuf[..i])
      {
        sum := sum + lineBuf[i];
        assert lineBuf[..i + 1][..i] == lineBuf[..i];
      }
    }

    /** put_packet_binary: the frame is kept until it is acknowledged. */
    method PutPacket(buf: seq<Byte>)
      requires Valid() && |buf| <= MAX_PACKET_LENGTH
      modifies `last, `pending, `out
      ensures Valid() && |last| <= MAX_PACKET_LENGTH + 4
      ensures View() == old(View()).(last := Frame(buf), pending := true, out := old(out) + Frame(buf))
    {
      var sum: nat := 0;
      for i := 0 to |buf|
        invariant sum == Sum(buf[..i])
      {
        sum := sum + buf[i];
        assert buf[..i + 1][..i] == buf[..i];
      }
      assert buf[..|buf|] == buf;
      last := [DOLLAR] + buf + [HASH, ToHex(sum / 16 % 16), ToHex(sum % 16)];
      pending := true;
      out := out + last;
    }

    /** One byte while a packet line is being read. */
    method LineByte(ch: Byte)
      requires Valid() && !running && !pending && (state == Idle || state == GetLine)
      modifies `state, `index, lineBuf
      ensures Valid() && View() == Step(old(View()), ch)
    {
      if state == Idle {
        if ch == DOLLAR {
          index := 0;
          state := GetLine;
        }
      } else if ch == HASH {
        state := Checksum1;
      } else if index >= MAX_PACKET_LENGTH - 1 {
        state := Idle;
      } else {
        lineBuf[index] := ch;
        index := index + 1;
        assert lineBuf[..index] == old(lineBuf[..index]) + [ch];
      }
    }

    /** One of the two checksum digits. */
    method ChecksumByte(ch: Byte)
      requires Valid() && !running && !pending && (state == Checksum1 || state == Checksum2)
      modifies `state, `csum, `out, `delivered, lineBuf
      ensures Valid() && View() == Step(old(View()), ch)
      ensures delivered != old(delivered) ==> lineBuf[index] == 0
    {
      if state == Checksum1 {
        lineBuf[index] := 0;
        assert lineBuf[..index] == old(lineBuf[..index]);
        csum := FromHex(ch) * 16;
        state := Checksum2;
      } else {
        csum := csum + FromHex(ch);
        var sum := LineSum();
        if csum != sum % 256 {
          out := out + [MINUS];
        } else {
          out := out + [PLUS];
          delivered := delivered + [lineBuf[..index]];
        }
        state := Idle;
      }
    }

    method ReadByte(ch: Byte)
      requires Valid()
      modifies this, lineBuf
      ensures Valid() && View() == Step(old(View()), ch)
      ensures delivered != old(delivered) ==> lineBuf[index] == 0
    {
      if pending {
        if ch == MINUS {
          out := out + last;
        }
        if ch == PLUS || ch == DOLLAR {
          pending := false;
        }
        if ch != DOLLAR {
          return;
        }
      }
      if running {
        running := false;
      } else if state == Idle || state == GetLine {
        LineByte(ch);
      } else {
        ChecksumByte(ch);
      }
    }

    method ReadBytes(s: seq<Byte>)
      requires Valid()
      modifies this, lineBuf
      ensures Valid() && View() == Feed(old(View()), s)
    {
      for i := 0 to |s|
        invariant Valid() && Feed(View(), s[i..]) == Feed(old(View()), s)
      {
        assert s[i..][1..] == s[i + 1..];
        ReadByte(s[i]);
      }
    }
  }
}
