/** The stream header: the server writes the target and a newline, the client reads byte by byte up to
    the newline and turns every byte into a character. */
module HeaderFraming {
  import opened Wrappers
  import opened GoInts

  const NEWLINE: byte := 10
  const LIMIT := 256

  /** `string(b)` for one byte: the UTF-8 form of the character with that code. */
  function AsCharacter(b: byte): (r: seq<byte>)
    ensures |r| == if b < 0x80 then 1 else 2
  {
    if b < 0x80 then [b] else [0xC0 + b / 64, 0x80 + b % 64]
  }

  function AsCharacters(s: seq<byte>): seq<byte> {
    if s == [] then [] else AsCharacters(s[..|s| - 1]) + AsCharacter(s[|s| - 1])
  }

  predicate Ascii(s: seq<byte>) {
    forall i :: 0 <= i < |s| ==> s[i] < 0x80
  }

  /** The first k bytes have no newline. */
  predicate OneLine(s: seq<byte>, k: nat)
    requires k <= |s|
  {
    forall i :: 0 <= i < k ==> s[i] != NEWLINE
  }

  /** Where the first newline is; the length if there is none. */
  function FirstNewline(s: seq<byte>): (i: nat)
    ensures i <= |s| && OneLine(s, i) && (i < |s| ==> s[i] == NEWLINE)
  {
    if s == [] || s[0] == NEWLINE then 0 else 1 + FirstNewline(s[1..])
  }

  datatype Header = Accepted(target: seq<byte>, unread: seq<byte>) | TooLong | Broken

  /** What the client makes of a stream. */
  function Receive(s: seq<byte>): Header {
    var i := FirstNewline(s);
    if |AsCharacters(s[..i])| > LIMIT then TooLong
    else if i < |s| then Accepted(AsCharacters(s[..i]), s[i + 1..])
    else Broken
  }

  /** The server's side. */
  function Frame(target: seq<byte>): seq<byte> {
    target + [NEWLINE]
  }

  class Stream {
    const data: seq<byte>
    var pos: nat

    ghost predicate Valid()
      reads this
    {
      pos <= |data|
    }

    constructor (data: seq<byte>)
      ensures Valid() && this.data == data && pos == 0
    {
      this.data := data;
      pos := 0;
    }

    /** Reads into a one-byte buffer; None at the end of the stream. */
    method Read() returns (b: Option<byte>)
      requires Valid()
      modifies this
      ensures Valid()
      ensures old(pos) == |data| ==> b == None && pos == old(pos)
      ensures old(pos) < |data| ==> b == Some(data[old(pos)]) && pos == old(pos) + 1
    {
      if pos == |data| {
        return None;
      }
      b := Some(data[pos]);
      pos := pos + 1;
    }
  }

  /** The header loop of `handleStream`. It never takes more than 257 bytes from the stream. */
  method ReadHeader(stream: Stream) returns (r: Header)
    requires stream.Valid() && stream.pos == 0
    modifies stream
    ensures stream.Valid() && r == Receive(stream.data)
    ensures r.Accepted? ==> r.unread == stream.data[stream.pos..]
    ensures stream.pos <= LIMIT + 1
  {
    var targetAddr := [];
    ghost var data := stream.data;
    assert data[..0] == [];
    while true
      invariant stream.Valid()
      invariant targetAddr == AsCharacters(data[..stream.pos])
      invariant stream.pos <= |targetAddr| <= LIMIT
      invariant OneLine(data, stream.pos)
      decreases |data| - stream.pos
    {
      ghost var k := stream.pos;
      var b := stream.Read();
      if b.None? || b.value == NEWLINE {
        NewlineAt(data, k);
        return if b.None? then Broken else Accepted(targetAddr, stream.data[stream.pos..]);
      }
      targetAddr := targetAddr + AsCharacter(b.value);
      OneMore(data, k);
      if |targetAddr| > LIMIT {
        TooLongAt(data, k + 1);
        return TooLong;
      }
    }
  }

  lemma OneMore(s: seq<byte>, k: nat)
    requires k < |s|
    ensures AsCharacters(s[..k + 1]) == AsCharacters(s[..k]) + AsCharacter(s[k])
  {
    assert s[..k + 1][..k] == s[..k];
  }

  lemma TooLongAt(s: seq<byte>, k: nat)
    requires k <= |s| && OneLine(s, k) && |AsCharacters(s[..k])| > LIMIT
    ensures Receive(s) == TooLong
  {
    var i := FirstNewline(s);
    assert s[..i][..k] == s[..k];
    Longer(s[..i], k);
  }

  lemma NewlineAt(s: seq<byte>, k: nat)
    requires k <= |s| && OneLine(s, k) && (k < |s| ==> s[k] == NEWLINE)
    ensures FirstNewline(s) == k
  {
  }

  lemma {:induction false} Longer(s: seq<byte>, k: nat)
    requires k <= |s|
    ensures |AsCharacters(s[..k])| <= |AsCharacters(s)|
  {
    if k == |s| {
      assert s[..k] == s;
    } else {
      Longer(s[..|s| - 1], k);
      assert s[..|s| - 1][..k] == s[..k];
    }
  }

  lemma {:induction false} AsciiIsUnchanged(s: seq<byte>)
    requires Ascii(s)
    ensures AsCharacters(s) == s
  {
    if s != [] {
      var n := |s| - 1;
      AsciiIsUnchanged(s[..n]);
      assert s == s[..n] + [s[n]];
    }
  }

  lemma {:induction false} OtherGrows(s: seq<byte>)
    ensures |AsCharacters(s)| >= |s|
    ensures !Ascii(s) ==> |AsCharacters(s)| > |s|
  {
    if s != [] {
      OtherGrows(s[..|s| - 1]);
    }
  }

  /** Framing round trip, exactly: the client recovers the target and leaves the payload if and only if
      the target is ASCII, has no newline and is at most 256 bytes long. */
  lemma FramingExactly(target: seq<byte>, payload: seq<byte>)
    ensures Receive(Frame(target) + payload) == Accepted(target, payload)
            <==> Ascii(target) && NEWLINE !in target && |target| <= LIMIT
  {
    OtherGrows(target);
    if Ascii(target) {
      AsciiIsUnchanged(target);
    }
    if NEWLINE !in target {
      OneLineArrives(target, payload);
    } else {
      TwoLinesBreak(target, payload);
    }
  }

  lemma OneLineArrives(target: seq<byte>, payload: seq<byte>)
    requires NEWLINE !in target
    ensures Receive(Frame(target) + payload)
            == if |AsCharacters(target)| > LIMIT then TooLong else Accepted(AsCharacters(target), payload)
  {
    var s, n := Frame(target) + payload, |target|;
    assert s[n] == NEWLINE;
    assert OneLine(s, n) by {
      assert forall i :: 0 <= i < n ==> s[i] == target[i] && target[i] in target;
    }
    NewlineAt(s, n);
    assert s[..n] == target;
    assert s[n + 1..] == payload;
  }

  /** The first line ends inside the target, so more than the payload is left unread. */
  lemma TwoLinesBreak(target: seq<byte>, payload: seq<byte>)
    requires NEWLINE in target
    ensures Receive(Frame(target) + payload) != Accepted(target, payload)
  {
    var s := Frame(target) + payload;
    var k :| 0 <= k < |target| && target[k] == NEWLINE;
    assert s[k] == NEWLINE;
    var i := FirstNewline(s);
    assert i <= k;
    assert |s[i + 1..]| > |payload|;
  }

  /** What becomes of any ASCII stream: a line of at most 256 bytes is the target, a longer one or a longer
      stream without newline is refused, and a shorter one is broken off. */
  lemma AsciiStream(s: seq<byte>, n: nat)
    requires Ascii(s) && n <= |s| && OneLine(s, n) && (n < |s| ==> s[n] == 10)
    ensures Receive(s) == if n > 256 then TooLong else if n == |s| then Broken else Accepted(s[..n], s[n + 1..])
  {
    NewlineAt(s, n);
    AsciiIsUnchanged(s[..n]);
  }

  /** A byte outside ASCII becomes the two bytes of its UTF-8 form. */
  lemma CharacterDecodes(b: byte)
    requires b >= 0x80
    ensures var r := AsCharacter(b);
            |r| == 2 && 0xC0 <= r[0] < 0xE0 && 0x80 <= r[1] < 0xC0 && (r[0] - 0xC0) * 64 + (r[1] - 0x80) == b
  {
  }

  /** A byte outside ASCII arrives as two. */
  lemma HighByteIsMangled(payload: seq<byte>)
    ensures Receive(Frame([0xE9]) + payload) == Accepted([0xC3, 0xA9], payload)
  {
    var s := Frame([0xE9]) + payload;
    assert s[..1] == [0xE9] && s[2..] == payload;
    NewlineAt(s, 1);
    assert [0xE9 as byte][..0] == [];
  }
}
