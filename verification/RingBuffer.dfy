/** The claim/finish ring buffer the bridge uses (Zephyr's ring_buf, whose source is not part
    of the repository), over a fixed array. A claim yields a contiguous stretch; finishing it
    commits a prefix of the stretch and refuses more than was claimed. */
module RingBuffer {
  import opened Bytes

  const EINVAL: int := 22

  /** The n elements of a circular buffer from index h on. */
  ghost function Wrapped(b: seq<byte>, h: nat, n: nat): (r: seq<byte>)
    requires n <= |b| && h < |b|
    ensures |r| == n
  {
    if h + n <= |b| then b[h..][..n] else b[h..] + b[..h + n - |b|]
  }

  class RingBuf {
    const buf: array<byte>
    var head: nat
    var count: nat
    var putClaimed: nat
    var getClaimed: nat

    ghost predicate Valid()
      reads this, buf
    {
      && 0 < buf.Length
      && head < buf.Length
      && count <= buf.Length
      && putClaimed <= PutRoom()
      && getClaimed <= GetRoom()
    }

    ghost function Contents(): (s: seq<byte>)
      requires head < buf.Length && count <= buf.Length
      reads this, buf
      ensures |s| == count
    {
      Wrapped(buf[..], head, count)
    }

    /** Where the next byte goes. */
    function Tail(): nat
      requires head < buf.Length && count <= buf.Length
      reads this
    {
      if head + count < buf.Length then head + count else head + count - buf.Length
    }

    /** Contiguous free stretch at the tail. */
    function PutRoom(): nat
      requires head < buf.Length && count <= buf.Length
      reads this
    {
      if head + count < buf.Length then buf.Length - (head + count) else buf.Length - count
    }

    /** Contiguous filled stretch at the head. */
    function GetRoom(): nat
      requires head < buf.Length && count <= buf.Length
      reads this
    {
      if head + count <= buf.Length then count else buf.Length - head
    }

    /** ring_buf_init */
    constructor (size: nat)
      requires size > 0
      ensures Valid() && Contents() == [] && buf.Length == size && fresh(buf)
    {
      buf := new byte[size](_ => 0);
      head, count, putClaimed, getClaimed := 0, 0, 0, 0;
    }

    /** ring_buf_space_get */
    method SpaceGet() returns (n: nat)
      requires Valid()
      ensures n == buf.Length - |Contents()|
    {
      n := buf.Length - count;
    }

    /** ring_buf_put_claim: at most size bytes of free space, contiguous from pos. */
    method PutClaim(size: nat) returns (pos: nat, n: nat)
      requires Valid()
      modifies `putClaimed
      ensures Valid() && Contents() == old(Contents())
      ensures putClaimed == n && pos == Tail() && pos + n <= buf.Length
      ensures n <= size && n <= buf.Length - |Contents()|
      ensures n == 0 <==> size == 0 || |Contents()| == buf.Length
    {
      pos := Tail();
      n := if size < PutRoom() then size else PutRoom();
      putClaimed := n;
    }

    /** A driver writes into the claimed stretch. */
    method Fill(pos: nat, data: seq<byte>)
      requires Valid() && pos == Tail() && |data| <= putClaimed
      modifies buf
      ensures Valid() && Contents() == old(Contents())
      ensures buf[pos..pos + |data|] == data
    {
      forall i | 0 <= i < |data| {
        buf[pos + i] := data[i];
      }
      assert buf[pos..pos + |data|] == data;
      if head + count < buf.Length {
        assert buf[..][head..][..count] == old(buf[..])[head..][..count];
      } else {
        assert buf[head..] == old(buf[head..]);
      }
    }

    /** ring_buf_put_finish */
    method PutFinish(n: nat) returns (ret: int)
      requires Valid()
      modifies `count, `putClaimed
      ensures Valid()
      ensures ret == if n <= old(putClaimed) then 0 else -EINVAL
      ensures Contents() == if ret == 0 then old(Contents()) + old(buf[Tail()..][..Within(n, buf.Length - Tail())]) else old(Contents())
    {
      if n > putClaimed {
        return -EINVAL;
      }
      ghost var was := Contents();
      ghost var add := buf[Tail()..][..n];
      ghost var b := buf[..];
      assert add == b[Tail()..][..n];
      AppendWrapped(b, head, count, n);
      count := count + n;
      putClaimed := 0;
      ret := 0;
    }

    /** ring_buf_get_claim: at most size queued bytes, contiguous from pos. */
    method GetClaim(size: nat) returns (pos: nat, n: nat)
      requires Valid()
      modifies `getClaimed
      ensures Valid() && Contents() == old(Contents())
      ensures getClaimed == n && n <= size && n <= |Contents()|
      ensures pos + n <= buf.Length && buf[pos..pos + n] == Contents()[..n]
      ensures n == 0 <==> size == 0 || Contents() == []
    {
      pos := head;
      n := if size < GetRoom() then size else GetRoom();
      getClaimed := n;
      assert buf[pos..pos + n] == Contents()[..n];
    }

    /** ring_buf_get_finish */
    method GetFinish(n: nat) returns (ret: int)
      requires Valid()
      modifies `head, `count, `getClaimed
      ensures Valid()
      ensures ret == if n <= old(getClaimed) then 0 else -EINVAL
      ensures old(getClaimed) <= old(|Contents()|)
      ensures Contents() == if ret == 0 then old(Contents())[n..] else old(Contents())
    {
      if n > getClaimed {
        return -EINVAL;
      }
      ghost var was := Contents();
      DropWrapped(buf[..], head, count, n);
      head := if head + n < buf.Length then head + n else head + n - buf.Length;
      count := count - n;
      getClaimed := 0;
      ret := 0;
    }
  }

  function Within(n: nat, limit: nat): (r: nat)
    ensures r <= limit && (n <= limit ==> r == n)
  {
    if n < limit then n else limit
  }

  lemma AppendWrapped(b: seq<byte>, h: nat, c: nat, n: nat)
    requires h < |b| && c + n <= |b|
    requires n <= if h + c < |b| then |b| - (h + c) else |b| - c
    ensures var tail := if h + c < |b| then h + c else h + c - |b|;
      tail + n <= |b| && Wrapped(b, h, c + n) == Wrapped(b, h, c) + b[tail..][..n]
  {
  }

  lemma DropWrapped(b: seq<byte>, h: nat, c: nat, n: nat)
    requires h < |b| && c <= |b|
    requires n <= if h + c <= |b| then c else |b| - h
    ensures var h' := if h + n < |b| then h + n else h + n - |b|;
      h' < |b| && Wrapped(b, h', c - n) == Wrapped(b, h, c)[n..]
  {
  }
}
