/** The capture proxy's body tee: read at most one byte more than the preview needs, then put the
    bytes read back in front of the rest. Each `char` stands for one byte. */
module BodyTee {

  /** A stream that hands out its bytes in chunks of any size; `chunk` picks the sizes. */
  class Source {
    var unread: string
    const chunk: string -> nat

    constructor (content: string, chunk: string -> nat)
      ensures unread == content && this.chunk == chunk
    {
      unread := content;
      this.chunk := chunk;
    }

    /** At least one byte while there is one and `max` allows it; nothing means the end. */
    method Read(max: nat) returns (data: string)
      modifies this`unread
      ensures old(unread) == data + unread && |data| <= max
      ensures max > 0 && old(unread) != [] ==> data != []
    {
      var n := if chunk(unread) == 0 then 1 else chunk(unread);
      if n > max {
        n := max;
      }
      if n > |unread| {
        n := |unread|;
      }
      data := unread[..n];
      unread := unread[n..];
    }
  }

  function AtMost(s: string, n: nat): (r: string)
    ensures r <= s && |r| == if |s| < n then |s| else n
  {
    if |s| <= n then s else s[..n]
  }

  /** Copies what a reader limited to `limit` bytes yields. */
  method CopyLimited(body: Source, limit: nat) returns (buf: string)
    modifies body`unread
    ensures old(body.unread) == buf + body.unread
    ensures |buf| == if |old(body.unread)| < limit then |old(body.unread)| else limit
  {
    buf := [];
    while |buf| < limit
      invariant old(body.unread) == buf + body.unread && |buf| <= limit
      decreases limit - |buf|
    {
      var data := body.Read(limit - |buf|);
      if data == [] {
        break;
      }
      buf := buf + data;
    }
  }

  /** The body as handed onward: first the bytes read, then the original stream. */
  class Rejoined {
    var head: string
    const rest: Source

    ghost function Unread(): string
      reads this, rest
    {
      head + rest.unread
    }

    constructor (head: string, rest: Source)
      ensures this.head == head && this.rest == rest
    {
      this.head := head;
      this.rest := rest;
    }

    method Read(max: nat) returns (data: string)
      modifies this`head, rest`unread
      ensures old(Unread()) == data + Unread() && |data| <= max
      ensures max > 0 && old(Unread()) != [] ==> data != []
    {
      if head == [] {
        data := rest.Read(max);
        assert head + rest.unread == rest.unread;
      } else {
        data := AtMost(head, max);
        head := head[|data|..];
      }
    }
  }

  /** Both captures, of request and response. The stream handed onward still yields the original
      byte for byte, and the preview, before redaction, is its beginning. */
  method Capture(body: Source, bodyMaxBytes: nat) returns (onward: Rejoined, preview: string)
    requires bodyMaxBytes > 0
    modifies body`unread
    ensures fresh(onward) && onward.Unread() == old(body.unread)
    ensures preview <= old(body.unread)
    ensures |preview| == if |old(body.unread)| < bodyMaxBytes then |old(body.unread)| else bodyMaxBytes
  {
    var buf := CopyLimited(body, bodyMaxBytes + 1);
    onward := new Rejoined(buf, body);
    preview := if |buf| > bodyMaxBytes then buf[..bodyMaxBytes] else buf;
  }

  /** Reading the rejoined stream to its end, in any chunks, gives what was left unread. */
  method ReadAll(body: Rejoined, max: nat) returns (all: string)
    requires max > 0
    modifies body`head, body.rest`unread
    ensures all == old(body.Unread()) && body.Unread() == []
  {
    all := [];
    ghost var left := body.Unread();
    while true
      invariant left == body.Unread() && all + left == old(body.Unread())
      decreases |left|
    {
      var data := body.Read(max);
      if data == [] {
        break;
      }
      assert all + (data + body.Unread()) == (all + data) + body.Unread();
      all := all + data;
      left := body.Unread();
    }
  }
}
