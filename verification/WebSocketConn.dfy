/** The adapter that reads a stream of WebSocket messages as one stream of bytes
    (internal/tunnel/conn.go). A message may arrive in fragments (section 5.4 of RFC 6455), so its
    reader hands out any non-empty part of what is left and reports the end only when nothing is. */
module WebSocketConn {
  import opened Wrappers
  import opened GoInts

  /** The rest of the message being read, if one is open, and the messages behind it. */
  datatype Conn = Conn(reader: Option<seq<byte>>, incoming: seq<seq<byte>>)

  function Concat(messages: seq<seq<byte>>): seq<byte> {
    if messages == [] then [] else messages[0] + Concat(messages[1..])
  }

  /** All bytes that have arrived and were not delivered. */
  function Pending(c: Conn): seq<byte> {
    (if c.reader.Some? then c.reader.value else []) + Concat(c.incoming)
  }

  function Smallest(a: nat, b: nat, c: nat): nat {
    if a <= b && a <= c then a else if b <= c then b else c
  }

  /** One read into a buffer of the given length; the message reader gives at most `part` bytes at once.
      No bytes and false stand for the error of a connection without further messages. */
  function ReadOnce(c: Conn, length: nat, part: nat): (Conn, seq<byte>, bool)
    decreases |c.incoming|, c.reader.Some?
  {
    match c.reader
    case None =>
      if c.incoming == [] then (c, [], false)
      else ReadOnce(Conn(Some(c.incoming[0]), c.incoming[1..]), length, part)
    case Some(rest) =>
      if rest == [] then ReadOnce(Conn(None, c.incoming), length, part)
      else
        var n := Smallest(length, part, |rest|);
        (Conn(Some(rest[n..]), c.incoming), rest[..n], true)
  }

  /** No byte is lost, repeated or reordered, and a read into a real buffer gets something unless nothing
      is left. */
  lemma {:induction false} ReadConserves(c: Conn, length: nat, part: nat)
    requires part > 0
    ensures var (d, bytes, ok) := ReadOnce(c, length, part);
            && bytes + Pending(d) == Pending(c)
            && |bytes| <= length
            && (ok && length > 0 ==> bytes != [])
            && (ok <==> Pending(c) != [])
    decreases |c.incoming|, c.reader.Some?
  {
    match c.reader
    case None =>
      if c.incoming != [] {
        ReadConserves(Conn(Some(c.incoming[0]), c.incoming[1..]), length, part);
        assert Pending(c) == c.incoming[0] + Concat(c.incoming[1..]);
      }
    case Some(rest) =>
      if rest == [] {
        ReadConserves(Conn(None, c.incoming), length, part);
      } else {
        var n := Smallest(length, part, |rest|);
        assert rest == rest[..n] + rest[n..];
        assert rest + Concat(c.incoming) == rest[..n] + (rest[n..] + Concat(c.incoming));
      }
  }

  class Connection {
    var reader: Option<seq<byte>>
    var incoming: seq<seq<byte>>
    var outgoing: seq<seq<byte>>

    ghost function Value(): Conn
      reads this
    {
      Conn(reader, incoming)
    }

    /** `Read` fills the buffer from the current message and calls itself at the end of one. */
    method Read(b: array<byte>, part: nat) returns (n: nat, ok: bool)
      requires part > 0
      modifies this`reader, this`incoming, b
      ensures n <= b.Length
      ensures (Value(), b[..n], ok) == ReadOnce(old(Value()), b.Length, part)
      ensures b[n..] == old(b[..])[n..]
      decreases |incoming|, reader.Some?
    {
      if reader.None? {
        if incoming == [] {
          assert b[..0] == [];
          return 0, false;
        }
        reader := Some(incoming[0]);
        incoming := incoming[1..];
      }
      assert ReadOnce(old(Value()), b.Length, part) == ReadOnce(Value(), b.Length, part);
      var rest := reader.value;
      if rest == [] {
        reader := None;
        n, ok := Read(b, part);
        return;
      }
      n := Smallest(b.Length, part, |rest|);
      for i := 0 to n
        modifies b
        invariant forall k :: 0 <= k < i ==> b[k] == rest[k]
        invariant forall k :: i <= k < b.Length ==> b[k] == old(b[..])[k]
      {
        b[i] := rest[i];
      }
      assert b[..n] == rest[..n];
      reader := Some(rest[n..]);
      ok := true;
    }

    /** `Write` sends one message, or nothing at all if the connection refuses it. */
    method Write(b: seq<byte>, accepted: bool) returns (n: nat, ok: bool)
      modifies this`outgoing
      ensures ok == accepted && n == if ok then |b| else 0
      ensures outgoing == if ok then old(outgoing) + [b] else old(outgoing)
    {
      if !accepted {
        return 0, false;
      }
      outgoing := outgoing + [b];
      return |b|, true;
    }
  }

  // Whole connections

  datatype Step = Send(message: seq<byte>) | Receive(length: nat, part: nat)

  /** What was sent, what was delivered, and the receiving end. */
  datatype Session = Session(sent: seq<seq<byte>>, delivered: seq<byte>, conn: Conn)

  const OPENED := Session([], [], Conn(None, []))

  function Apply(s: Session, step: Step): Session {
    match step
    case Send(m) => s.(sent := s.sent + [m], conn := s.conn.(incoming := s.conn.incoming + [m]))
    case Receive(length, part) =>
      var (d, bytes, _) := ReadOnce(s.conn, length, if part == 0 then 1 else part);
      s.(delivered := s.delivered + bytes, conn := d)
  }

  function Exec(steps: seq<Step>): Session {
    if steps == [] then OPENED else Apply(Exec(steps[..|steps| - 1]), steps[|steps| - 1])
  }

  lemma {:induction false} ConcatSnoc(messages: seq<seq<byte>>, m: seq<byte>)
    ensures Concat(messages + [m]) == Concat(messages) + m
  {
    if messages == [] {
      assert messages + [m] == [m];
      assert [m][1..] == [];
    } else {
      assert (messages + [m])[1..] == messages[1..] + [m];
      ConcatSnoc(messages[1..], m);
    }
  }

  lemma {:induction false} NothingLost(steps: seq<Step>)
    ensures var s := Exec(steps); s.delivered + Pending(s.conn) == Concat(s.sent)
  {
    if steps != [] {
      var n := |steps| - 1;
      var s := Exec(steps[..n]);
      NothingLost(steps[..n]);
      match steps[n] {
        case Send(m) =>
          ConcatSnoc(s.sent, m);
          ConcatSnoc(s.conn.incoming, m);
        case Receive(length, part) =>
          ReadConserves(s.conn, length, if part == 0 then 1 else part);
      }
    }
  }

  /** Conservation: however messages are split, sent and read, the bytes delivered are a prefix of the
      bytes sent, and a read into a non-empty buffer delivers more until they are all there. */
  lemma DeliveredIsPrefix(steps: seq<Step>, length: nat, part: nat)
    requires length > 0
    ensures var s, t := Exec(steps), Exec(steps + [Receive(length, part)]);
            && s.delivered <= Concat(s.sent)
            && t.delivered <= Concat(t.sent)
            && (s.delivered == Concat(s.sent) || |t.delivered| > |s.delivered|)
  {
    var s := Exec(steps);
    NothingLost(steps);
    NothingLost(steps + [Receive(length, part)]);
    assert (steps + [Receive(length, part)])[..|steps|] == steps;
    ReadConserves(s.conn, length, if part == 0 then 1 else part);
  }
}
