/** The sector copy loop of the boot loader. The bytes that come in over SPI are a sequence; where it
 * ends the loader would still be waiting. */
module SdCopy {
  import Seqs
  import opened Crc16

  const SECTOR_SIZE: nat := 512
  const TOKEN: Byte := [true, true, true, true, true, true, true, false]   // 0xFE

  function Flatten(bytes: seq<Byte>): Bits {
    if bytes == [] then [] else bytes[0] + Flatten(bytes[1..])
  }

  lemma {:induction false} FlattenAppend(a: seq<Byte>, b: seq<Byte>)
    ensures Flatten(a + b) == Flatten(a) + Flatten(b)
  {
    if a == [] {
      assert a + b == b;
    } else {
      FlattenAppend(a[1..], b);
      Seqs.Uncons(a, b);
      Seqs.Assoc(a[0], Flatten(a[1..]), Flatten(b));
    }
  }

  lemma FlattenOne(b: Byte)
    ensures Flatten([b]) == b
  {
    assert [b][1..] == [];
  }

  /** The checksum of a block of bytes: the polynomial remainder of their bits. */
  function CrcOf(bytes: seq<Byte>): Word {
    Remainder(ZERO, Flatten(bytes))
  }

  lemma CrcExtends(bytes: seq<Byte>, b: Byte)
    ensures CrcOf(bytes + [b]) == Remainder(CrcOf(bytes), b)
  {
    FlattenAppend(bytes, [b]);
    FlattenOne(b);
    RemainderAppend(ZERO, Flatten(bytes), b);
  }

  // ---------- what the loader sees ----------

  /** One sector of the stream: its data, its checksum and what follows; or the data that came before
   * the stream ran dry. */
  datatype Sector = Complete(data: seq<Byte>, crc: Word, rest: seq<Byte>) | Starved(data: seq<Byte>)

  /** Drop everything up to the start token. */
  function AfterToken(input: seq<Byte>): seq<Byte> {
    if input == [] then []
    else if input[0] == TOKEN then input[1..]
    else AfterToken(input[1..])
  }

  /** Two bytes as a word, high byte first. */
  function Join(high: Bits, low: Bits): Word
    requires |high| == 8 && |low| == 8
  {
    high + low
  }

  function ReadSector(input: seq<Byte>): Sector {
    var body := AfterToken(input);
    if |body| < SECTOR_SIZE + 2 then Starved(if |body| < SECTOR_SIZE then body else body[..SECTOR_SIZE])
    else Complete(body[..SECTOR_SIZE], Join(body[SECTOR_SIZE], body[SECTOR_SIZE + 1]), body[SECTOR_SIZE + 2..])
  }

  /** The outcome of loading: `rc` as returned, or no return because input is missing; and the bytes
   * written to memory. */
  datatype Outcome = Returned(rc: int, written: seq<Byte>) | Waiting(written: seq<Byte>) {
    function After(data: seq<Byte>): Outcome {
      match this
      case Returned(rc, written) => Returned(rc, data + written)
      case Waiting(written) => Waiting(data + written)
    }
  }

  /** Load `n` sectors, stopping at the first whose checksum does not match. */
  function Load(input: seq<Byte>, n: nat): Outcome
    decreases n
  {
    if n == 0 then Returned(0, [])
    else
      match ReadSector(input)
      case Starved(data) => Waiting(data)
      case Complete(data, crc, rest) =>
        if crc != CrcOf(data) then Returned(1, data)
        else Load(rest, n - 1).After(data)
  }

  // ---------- the loops ----------

  /** Wait for the start token. */
  method SkipToToken(input: seq<Byte>, start: nat) returns (at: nat)
    requires start <= |input|
    ensures start <= at <= |input| && AfterToken(input[start..]) == input[at..]
  {
    at := start;
    while at < |input| && input[at] != TOKEN
      invariant start <= at <= |input|
      invariant AfterToken(input[start..]) == AfterToken(input[at..])
    {
      assert input[at..][1..] == input[at + 1..];
      at := at + 1;
    }
    if at < |input| {
      assert input[at..][1..] == input[at + 1..];
      at := at + 1;
    }
  }

  /** Read up to a sector of data into `dest` at `p`, keeping the checksum as it goes. */
  method ReadData(input: seq<Byte>, at: nat, dest: array<Byte>, p: nat) returns (n: nat, crc: Word)
    requires at <= |input| && p + SECTOR_SIZE <= dest.Length
    modifies dest
    ensures n == if |input| - at < SECTOR_SIZE then |input| - at else SECTOR_SIZE
    ensures crc == CrcOf(input[at..at + n])
    ensures dest[..] == old(dest[..p]) + input[at..at + n] + old(dest[p + n..])
  {
    n, crc := 0, ZERO;
    assert input[at..at] == [];
    assert CrcOf([]) == ZERO;
    hide CrcOf, Remainder;
    ghost var d := dest[..];
    assert d == d[..p] + [] + d[p..];
    while n < SECTOR_SIZE && at + n < |input|
      invariant n <= SECTOR_SIZE && at + n <= |input|
      invariant crc == CrcOf(input[at..at + n])
      invariant dest[..] == d[..p] + input[at..at + n] + d[p + n..]
    {
      var x := input[at + n];
      ghost var was := dest[..];
      dest[p + n] := x;
      assert dest[..] == was[p + n := x];
      StoreNext(d, p, input, at, n);
      crc := Crc16Round(crc, x);
      n := n + 1;
    }
  }

  lemma Overwrite(a: seq<Byte>, b: seq<Byte>, c: seq<Byte>, x: Byte)
    requires c != []
    ensures (a + b + c)[|a| + |b| := x] == a + (b + [x]) + c[1..]
  {
  }

  /** What storing one more byte does to memory and to the checksum. */
  lemma StoreNext(d: seq<Byte>, p: nat, input: seq<Byte>, at: nat, n: nat)
    requires p + n < |d| && at + n < |input|
    ensures (d[..p] + input[at..at + n] + d[p + n..])[p + n := input[at + n]] ==
            d[..p] + input[at..at + n + 1] + d[p + n + 1..]
    ensures CrcOf(input[at..at + n + 1]) == Remainder(CrcOf(input[at..at + n]), input[at + n])
  {
    hide CrcOf, Remainder;
    var data, x := input[at..at + n], input[at + n];
    Overwrite(d[..p], data, d[p + n..], x);
    assert d[p + n..][1..] == d[p + n + 1..];
    CrcExtends(data, x);
    assert input[at..at + n + 1] == data + [x];
  }

  /** Read one sector into `dest` at `p`, with its checksum as computed and as sent. */
  method ReadNext(input: seq<Byte>, start: nat, dest: array<Byte>, p: nat)
    returns (sector: Sector, crc: Word, at: nat)
    requires start <= |input| && p + SECTOR_SIZE <= dest.Length
    modifies dest
    ensures sector == ReadSector(input[start..]) && |sector.data| <= SECTOR_SIZE
    ensures dest[..] == old(dest[..p]) + sector.data + old(dest[p + |sector.data|..])
    ensures crc == CrcOf(sector.data)
    ensures sector.Complete? ==> |sector.data| == SECTOR_SIZE && at <= |input| && input[at..] == sector.rest
  {
    hide CrcOf;
    at := SkipToToken(input, start);
    ghost var body := input[at..];
    var n;
    n, crc := ReadData(input, at, dest, p);
    var data := input[at..at + n];
    assert data == body[..n];
    at := at + n;
    if |input| - at < 2 {
      sector := Starved(data);
    } else {
      assert body[n] == input[at] && body[n + 1] == input[at + 1] && body[n + 2..] == input[at + 2..];
      sector := Complete(data, Join(input[at], input[at + 1]), input[at + 2..]);
      at := at + 2;
    }
  }

  /** Copy `sectors` sectors to `dest`, which has room for them. */
  method Copy(commandAccepted: bool, input: seq<Byte>, sectors: nat, dest: array<Byte>) returns (outcome: Outcome)
    requires 0 < sectors && dest.Length == sectors * SECTOR_SIZE
    modifies dest
    ensures !commandAccepted ==> outcome == Returned(1, [])
    ensures commandAccepted ==> outcome == Load(input, sectors)
    ensures |outcome.written| <= dest.Length
    ensures dest[..] == outcome.written + old(dest[|outcome.written|..])
  {
    hide ReadSector, CrcOf;
    if !commandAccepted {
      return Returned(1, []);
    }
    ghost var before := dest[..];
    var p, i, at := 0, sectors, 0;
    assert Load(input, sectors).After([]) == Load(input, sectors) && input[0..] == input;
    while i > 0
      invariant 0 <= i <= sectors && p == (sectors - i) * SECTOR_SIZE && 0 <= at <= |input|
      invariant dest[..] == dest[..p] + before[p..]
      invariant Load(input, sectors) == Load(input[at..], i).After(dest[..p])
      decreases i
    {
      ghost var done, start := dest[..p], at;
      var sector, crc;
      sector, crc, at := ReadNext(input, at, dest, p);
      ghost var data := sector.data;
      p := p + |sector.data|;
      assert dest[..p] == done + data && dest[..] == dest[..p] + before[p..];
      if sector.Starved? {
        return Waiting(dest[..p]);
      }
      if crc != sector.crc {
        return Returned(1, dest[..p]);
      }
      AfterAfter(Load(input[at..], i - 1), data, done);
      i := i - 1;
    }
    outcome := Returned(0, dest[..p]);
  }

  // ---------- round trip and rejection ----------

  /** A sector as the card sends it: filler, the token, the data and a checksum. */
  function Frame(filler: seq<Byte>, data: seq<Byte>, crc: Word): seq<Byte> {
    filler + [TOKEN] + data + [crc[..8], crc[8..]]
  }

  lemma {:induction false} TokenFound(filler: seq<Byte>, tail: seq<Byte>)
    requires TOKEN !in filler
    ensures AfterToken(filler + [TOKEN] + tail) == tail
  {
    if filler == [] {
      assert ([TOKEN] + tail)[1..] == tail;
      assert filler + [TOKEN] + tail == [TOKEN] + tail;
    } else {
      assert (filler + [TOKEN] + tail)[1..] == filler[1..] + [TOKEN] + tail;
      TokenFound(filler[1..], tail);
    }
  }

  lemma FrameRead(filler: seq<Byte>, data: seq<Byte>, crc: Word, rest: seq<Byte>)
    requires TOKEN !in filler && |data| == SECTOR_SIZE
    ensures ReadSector(Frame(filler, data, crc) + rest) == Complete(data, crc, rest)
  {
    var tail := data + [crc[..8], crc[8..]] + rest;
    assert Frame(filler, data, crc) + rest == filler + [TOKEN] + tail;
    TokenFound(filler, tail);
    assert tail[..SECTOR_SIZE] == data && tail[SECTOR_SIZE + 2..] == rest;
    assert Join(crc[..8], crc[8..]) == crc;
  }

  /** Sectors sent with their right checksums are loaded as they are, whatever comes between them. */
  lemma GoodSectorLoads(filler: seq<Byte>, data: seq<Byte>, rest: seq<Byte>, n: nat)
    requires TOKEN !in filler && |data| == SECTOR_SIZE
    ensures Load(Frame(filler, data, CrcOf(data)) + rest, n + 1) == Load(rest, n).After(data)
  {
    FrameRead(filler, data, CrcOf(data), rest);
  }

  datatype Sent = Sent(filler: seq<Byte>, data: seq<Byte>) {
    predicate Proper() { TOKEN !in filler && |data| == SECTOR_SIZE }
  }

  function Stream(sent: seq<Sent>): seq<Byte> {
    if sent == [] then [] else Frame(sent[0].filler, sent[0].data, CrcOf(sent[0].data)) + Stream(sent[1..])
  }

  function Payload(sent: seq<Sent>): seq<Byte> {
    if sent == [] then [] else sent[0].data + Payload(sent[1..])
  }

  /** Round trip: good sectors come out in order, and loading goes on with what follows them. */
  lemma {:induction false} StreamLoads(sent: seq<Sent>, rest: seq<Byte>, n: nat)
    requires forall i | 0 <= i < |sent| :: sent[i].Proper()
    ensures Load(Stream(sent) + rest, |sent| + n) == Load(rest, n).After(Payload(sent))
  {
    hide Load, Frame, CrcOf;
    if sent == [] {
      assert Stream(sent) + rest == rest;
      assert Load(rest, n).After([]) == Load(rest, n);
    } else {
      var s, later := sent[0], sent[1..];
      assert s.Proper();
      assert forall i | 0 <= i < |later| :: later[i] == sent[i + 1];
      StreamLoads(later, rest, n);
      GoodSectorLoads(s.filler, s.data, Stream(later) + rest, |later| + n);
      var f := Frame(s.filler, s.data, CrcOf(s.data));
      assert Stream(sent) + rest == f + (Stream(later) + rest);
      AfterAfter(Load(rest, n), Payload(later), s.data);
    }
  }

  lemma AfterAfter(o: Outcome, a: seq<Byte>, b: seq<Byte>)
    ensures o.After(a).After(b) == o.After(b + a)
  {
    assert b + (a + o.written) == b + a + o.written;
  }

  /** Two blocks that differ only within two adjacent bytes have different checksums. */
  lemma AdjacentBytesDetected(pre: seq<Byte>, u: seq<Byte>, v: seq<Byte>, post: seq<Byte>)
    requires |u| == |v| <= 2 && u != v
    ensures CrcOf(pre + u + post) != CrcOf(pre + v + post)
  {
    FlattenShort(u, v);
    FlattenAppend(pre + u, post);
    FlattenAppend(pre, u);
    FlattenAppend(pre + v, post);
    FlattenAppend(pre, v);
    BurstDetected(Flatten(pre), Flatten(u), Flatten(v), Flatten(post));
  }

  lemma FlattenShort(u: seq<Byte>, v: seq<Byte>)
    requires |u| == |v| <= 2 && u != v
    ensures |Flatten(u)| == |Flatten(v)| <= 16 && Flatten(u) != Flatten(v)
  {
    if |u| == 1 {
      FlattenOne(u[0]);
      FlattenOne(v[0]);
      assert u == [u[0]] && v == [v[0]];
    } else if |u| == 2 {
      FlattenOne(u[1]);
      FlattenOne(v[1]);
      assert u[1..] == [u[1]] && v[1..] == [v[1]];
      assert Flatten(u)[..8] == u[0] && Flatten(v)[..8] == v[0];
      assert Flatten(u)[8..] == u[1] && Flatten(v)[8..] == v[1];
    }
  }

  /** A sector damaged within two adjacent bytes stops the load with an error, after any number of
   * good sectors, whatever follows. */
  lemma DamagedSectorRejected(sent: seq<Sent>, filler: seq<Byte>,
                              pre: seq<Byte>, u: seq<Byte>, v: seq<Byte>, post: seq<Byte>, rest: seq<Byte>, n: nat)
    requires forall i | 0 <= i < |sent| :: sent[i].Proper()
    requires TOKEN !in filler && |u| == |v| <= 2 && u != v && |pre + u + post| == SECTOR_SIZE
    ensures Load(Stream(sent) + (Frame(filler, pre + v + post, CrcOf(pre + u + post)) + rest), |sent| + (n + 1)) ==
            Returned(1, Payload(sent) + (pre + v + post))
  {
    AdjacentBytesDetected(pre, u, v, post);
    FrameRead(filler, pre + v + post, CrcOf(pre + u + post), rest);
    StreamLoads(sent, Frame(filler, pre + v + post, CrcOf(pre + u + post)) + rest, n + 1);
  }

  // ---------- and conversely ----------

  lemma {:induction false} TokenSplits(input: seq<Byte>) returns (filler: seq<Byte>)
    requires AfterToken(input) != []
    ensures TOKEN !in filler && input == filler + [TOKEN] + AfterToken(input)
  {
    if input[0] == TOKEN {
      filler := [];
    } else {
      var f := TokenSplits(input[1..]);
      filler := [input[0]] + f;
      assert input == [input[0]] + input[1..];
    }
  }

  /** A sector that was read was sent as a frame. */
  lemma ReadWasFrame(input: seq<Byte>) returns (filler: seq<Byte>)
    requires ReadSector(input).Complete?
    ensures var r := ReadSector(input);
            TOKEN !in filler && |r.data| == SECTOR_SIZE && input == Frame(filler, r.data, r.crc) + r.rest
  {
    filler := TokenSplits(input);
    var body, r := AfterToken(input), ReadSector(input);
    Halves(body[SECTOR_SIZE], body[SECTOR_SIZE + 1]);
    Around(body, SECTOR_SIZE);
    var tail := [r.crc[..8], r.crc[8..]];
    hide AfterToken, ReadSector;
    Seqs.Assoc(filler + [TOKEN], r.data + tail, r.rest);
    Seqs.Assoc(filler + [TOKEN], r.data, tail);
  }

  lemma Halves(high: Byte, low: Byte)
    ensures Join(high, low)[..8] == high && Join(high, low)[8..] == low
  {
  }

  lemma Around(body: seq<Byte>, n: nat)
    requires n + 2 <= |body|
    ensures body == (body[..n] + [body[n], body[n + 1]]) + body[n + 2..]
  {
  }

  ghost predicate RefusedFrame(rest: seq<Byte>, loaded: seq<Byte>, written: seq<Byte>,
                               filler: seq<Byte>, data: seq<Byte>, crc: Word, after: seq<Byte>) {
    && TOKEN !in filler && |data| == SECTOR_SIZE && crc != CrcOf(data)
    && rest == Frame(filler, data, crc) + after && written == loaded + data
  }

  /** `rest` begins with a frame whose checksum is wrong, and its data is in memory, too. */
  ghost predicate Refused(rest: seq<Byte>, loaded: seq<Byte>, written: seq<Byte>) {
    exists filler, data, crc: Word, after :: RefusedFrame(rest, loaded, written, filler, data, crc, after)
  }

  lemma RefusedAfter(rest: seq<Byte>, loaded: seq<Byte>, written: seq<Byte>, data: seq<Byte>)
    requires Refused(rest, loaded, written)
    ensures Refused(rest, data + loaded, data + written)
  {
    hide Frame, CrcOf;
    var filler, d, crc: Word, after :| RefusedFrame(rest, loaded, written, filler, d, crc, after);
    Seqs.Assoc(data, loaded, d);
    assert RefusedFrame(rest, data + loaded, data + written, filler, d, crc, after);
  }

  predicate AllProper(sent: seq<Sent>) {
    forall i | 0 <= i < |sent| :: sent[i].Proper()
  }

  /** Why loading `n` sectors returned: with 0, as many frames with right checksums were sent, and their data
   * is what is in memory; with 1, fewer such frames and then one whose checksum is wrong. */
  ghost predicate Explains(input: seq<Byte>, n: nat, o: Outcome, sent: seq<Sent>, rest: seq<Byte>) {
    && AllProper(sent) && input == Stream(sent) + rest && o.Returned?
    && if o.rc == 0 then |sent| == n && o.written == Payload(sent)
       else o.rc == 1 && |sent| < n && Refused(rest, Payload(sent), o.written)
  }

  lemma ExplainsMore(s: Sent, input: seq<Byte>, n: nat, o: Outcome, sent: seq<Sent>, rest: seq<Byte>)
    requires s.Proper() && Explains(input, n, o, sent, rest)
    ensures Explains(Frame(s.filler, s.data, CrcOf(s.data)) + input, n + 1, o.After(s.data), [s] + sent, rest)
  {
    hide Frame, CrcOf, Refused;
    assert ([s] + sent)[1..] == sent;
    Seqs.Assoc(Frame(s.filler, s.data, CrcOf(s.data)), Stream(sent), rest);
    if o.rc == 1 {
      RefusedAfter(rest, Payload(sent), o.written, s.data);
    }
  }

  lemma ExplainsRefusal(input: seq<Byte>, n: nat, filler: seq<Byte>, data: seq<Byte>, crc: Word, after: seq<Byte>)
    requires 0 < n && RefusedFrame(input, [], data, filler, data, crc, after)
    ensures Explains(input, n, Returned(1, data), [], input)
  {
    hide Frame, CrcOf;
    Seqs.EmptyLeft(input);
  }

  /** The copy returns only with a reason. */
  lemma {:induction false} ReturnExplained(input: seq<Byte>, n: nat) returns (sent: seq<Sent>, rest: seq<Byte>)
    requires Load(input, n).Returned?
    ensures Explains(input, n, Load(input, n), sent, rest)
    decreases n
  {
    hide CrcOf, ReadSector, Frame, Explains;
    if n == 0 {
      sent, rest := [], input;
      ExplainsNone(input);
    } else {
      var filler := ReadWasFrame(input);
      var r := ReadSector(input);
      if r.crc != CrcOf(r.data) {
        sent, rest := [], input;
        Seqs.EmptyLeft(r.data);
        ExplainsRefusal(input, n, filler, r.data, r.crc, r.rest);
      } else {
        sent, rest := ReturnExplained(r.rest, n - 1);
        ExplainsMore(Sent(filler, r.data), r.rest, n - 1, Load(r.rest, n - 1), sent, rest);
        sent := [Sent(filler, r.data)] + sent;
      }
    }
  }

  lemma ExplainsNone(input: seq<Byte>)
    ensures Explains(input, 0, Returned(0, []), [], input)
  {
    Seqs.EmptyLeft(input);
  }

  /** A stream that stops short leaves the loader waiting, with what came in memory. */
  lemma ShortStreamWaits(sent: seq<Sent>, filler: seq<Byte>, part: seq<Byte>, n: nat)
    requires forall i | 0 <= i < |sent| :: sent[i].Proper()
    requires TOKEN !in filler && |part| < SECTOR_SIZE + 2
    ensures Load(Stream(sent) + (filler + [TOKEN] + part), |sent| + (n + 1)) ==
            Waiting(Payload(sent) + if |part| < SECTOR_SIZE then part else part[..SECTOR_SIZE])
  {
    StreamLoads(sent, filler + [TOKEN] + part, n + 1);
    TokenFound(filler, part);
  }
}
