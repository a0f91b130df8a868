/** The console ring buffer, as a window on the endless stream of bytes written to it. */
module ConsoleBuffer {
  import opened Rings
  import opened Sequences

  /** Where the kept part of the stream begins: one slot always stays free. */
  function Start(total: nat, n: nat): (s: nat)
    requires n > 0
    ensures s <= total < s + n
  {
    total - Min(total, n - 1)
  }

  /** The slots from head to tail hold the last bytes of the stream. */
  ghost predicate Window(n: nat, data: seq<char>, head: nat, tail: nat, stream: seq<char>) {
    && n == |data| > 0
    && head == At(Start(|stream|, n), n) && tail == At(|stream|, n)
    && forall k :: Start(|stream|, n) <= k < |stream| ==> InSlot(data, stream, k)
  }

  ghost predicate InSlot(data: seq<char>, stream: seq<char>, k: nat)
    requires |data| > 0 && k < |stream|
  {
    data[At(k, |data|)] == stream[k]
  }

  lemma WriteOne(n: nat, data: seq<char>, head: nat, tail: nat, stream: seq<char>, c: char)
    requires Window(n, data, head, tail, stream)
    ensures var t := (tail + 1) % n;
      Window(n, data[tail := c], if t == head then (head + 1) % n else head, t, stream + [c])
  {
    var data', stream' := data[tail := c], stream + [c];
    EndsMove(n, |stream|);
    forall k | Start(|stream'|, n) <= k < |stream'| ensures InSlot(data', stream', k) {
      hide At;
      if k < |stream| {
        assert InSlot(data, stream, k);
        Apart(k, |stream|, n);
      }
    }
    hide Start, At, InSlot;
  }

  /** With one more character the tail moves on, and the head before it runs into the tail. */
  lemma EndsMove(n: nat, total: nat)
    requires n > 0
    ensures At(total + 1, n) == (At(total, n) + 1) % n
    ensures var h := At(Start(total, n), n);
      At(Start(total + 1, n), n) == if (At(total, n) + 1) % n == h then (h + 1) % n else h
    ensures Start(total, n) <= Start(total + 1, n) && total < Start(total + 1, n) + n
  {
    Next(total, n);
    var s := Start(total, n);
    Ahead(s, total + 1 - s, n);
    Next(s, n);
  }

  /** A reader's offset stands for position pos of the stream, which has not been overwritten. */
  ghost predicate Attached(n: nat, total: nat, offset: int, pos: nat) {
    && n > 0 && Start(total, n) <= pos <= total
    && if offset == -1 then pos == Start(total, n) else offset == At(pos, n)
  }

  /** If the offset stands for position pos, reading gave what comes next, and a new offset behind it. */
  ghost predicate ReadsOn(n: nat, stream: seq<char>, offset: int, pos: nat, len: nat, bytes: seq<char>, offset': int) {
    Attached(n, |stream|, offset, pos) ==>
      var size := Min(len, |stream| - pos);
      bytes == stream[pos..pos + size] && Attached(n, |stream|, offset', pos + size)
  }

  lemma Slice(n: nat, data: seq<char>, head: nat, tail: nat, stream: seq<char>, pos: nat, len: nat)
    requires Window(n, data, head, tail, stream)
    requires Start(|stream|, n) <= pos && pos + len <= |stream| && At(pos, n) + len <= n
    ensures data[At(pos, n)..At(pos, n) + len] == stream[pos..pos + len]
  {
    var a, b := data[At(pos, n)..At(pos, n) + len], stream[pos..pos + len];
    forall i | 0 <= i < len ensures a[i] == b[i] {
      Ahead(pos, i, n);
      assert InSlot(data, stream, pos + i);
    }
  }

  function Wrap(k: nat, n: nat): int {
    if k < n then k else k - n
  }

  /** What two copies, up to the end of the buffer and from its start, put together. */
  function TwoCopies(data: seq<char>, from: nat, tail: nat, len: nat): (r: seq<char>)
    requires from < |data| && tail < |data|
    ensures |r| <= len
  {
    if from < tail then data[from..from + Min(tail - from, len)]
    else if tail < from then
      var size := Min(|data| - from, len);
      data[from..from + size] + data[..Min(tail, len - size)]
    else []
  }

  /** With m characters left to read, either the first copy suffices or both are needed. */
  lemma OneOrTwo(data: seq<char>, from: nat, tail: nat, len: nat, m: nat)
    requires from < |data| && m < |data| && tail == Wrap(from + m, |data|)
    ensures tail < |data|
    ensures var first, size := |data| - from, Min(len, m);
      TwoCopies(data, from, tail, len) ==
      if size <= first then data[from..from + size] else data[from..|data|] + data[..size - first]
  {
    if from + m == |data| {
      assert tail == 0 && data[..0] == [];
    } else if from + m > |data| {
      assert data[..0] == [];
    }
  }

  lemma CopiesAreNext(n: nat, data: seq<char>, head: nat, tail: nat, stream: seq<char>, pos: nat, len: nat)
    requires Window(n, data, head, tail, stream) && Start(|stream|, n) <= pos <= |stream|
    ensures tail < n && TwoCopies(data, At(pos, n), tail, len) == stream[pos..pos + Min(len, |stream| - pos)]
  {
    hide Window, Start, TwoCopies, Wrap;
    TailAhead(n, data, head, tail, stream, pos);
    hide At;
    var from, size := At(pos, n), Min(len, |stream| - pos);
    OneOrTwo(data, from, tail, len, |stream| - pos);
    if size <= n - from {
      Slice(n, data, head, tail, stream, pos, size);
    } else {
      Slice(n, data, head, tail, stream, pos, n - from);
      SecondCopy(n, data, head, tail, stream, pos, n - from, size);
    }
  }

  lemma TailAhead(n: nat, data: seq<char>, head: nat, tail: nat, stream: seq<char>, pos: nat)
    requires Window(n, data, head, tail, stream) && Start(|stream|, n) <= pos <= |stream|
    ensures n == |data| > 0 && |stream| - pos < n
    ensures tail == Wrap(At(pos, n) + (|stream| - pos), n)
  {
    Ahead(pos, |stream| - pos, n);
  }

  lemma SecondCopy(n: nat, data: seq<char>, head: nat, tail: nat, stream: seq<char>, pos: nat, first: nat, size: nat)
    requires Window(n, data, head, tail, stream) && Start(|stream|, n) <= pos
    requires n > 0 && first == n - At(pos, n) <= size && pos + size <= |stream| && size - first <= n
    ensures |data| == n && data[..size - first] == stream[pos + first..pos + size]
    ensures stream[pos..pos + size] == stream[pos..pos + first] + stream[pos + first..pos + size]
  {
    Ahead(pos, first, n);
    Slice(n, data, head, tail, stream, pos + first, size - first);
  }

  class ConsoleBuffer {
    const buffer: array<char>     // BOARD_CONSOLE_BUFFER_SIZE bytes
    var head: nat
    var tail: nat
    ghost var stream: seq<char>

    ghost predicate Valid()
      reads this, buffer
    {
      Window(buffer.Length, buffer[..], head, tail, stream)
    }

    /** What is in the buffer. */
    ghost function Content(): (c: seq<char>)
      requires Valid()
      reads this, buffer
      ensures |c| == Min(|stream|, buffer.Length - 1)
    {
      stream[Start(|stream|, buffer.Length)..]
    }

    constructor (n: nat)
      requires n > 0
      ensures Valid() && stream == [] && buffer.Length == n && fresh(buffer)
    {
      buffer := new char[n](_ => '\0');
      head, tail, stream := 0, 0, [];
    }

    method Write(bytes: seq<char>)
      requires Valid()
      modifies this, buffer
      ensures Valid() && stream == old(stream) + bytes
    {
      hide Window;
      WindowSize(buffer.Length, buffer[..], head, tail, stream);
      for i := 0 to |bytes|
        invariant Valid() && stream == old(stream) + bytes[..i]
      {
        WindowSize(buffer.Length, buffer[..], head, tail, stream);
        WriteOne(buffer.Length, buffer[..], head, tail, stream, bytes[i]);
        ghost var was := buffer[..];
        buffer[tail] := bytes[i];
        assert buffer[..] == was[tail := bytes[i]];
        tail := (tail + 1) % buffer.Length;
        if tail == head {
          head := (head + 1) % buffer.Length;
        }
        stream := stream + [bytes[i]];
      }
    }

    method Size() returns (size: int)
      requires Valid()
      ensures size == |Content()|
    {
      ghost var s := Start(|stream|, buffer.Length);
      Ahead(s, |stream| - s, buffer.Length);
      if head <= tail {
        size := tail - head;
      } else {
        size := buffer.Length - (head - tail);
      }
    }

    /** The copies out of the buffer. */
    method Fetch(from: nat, bufferLength: nat) returns (bytes: seq<char>)
      requires from < buffer.Length && tail < buffer.Length
      ensures bytes == TwoCopies(buffer[..], from, tail, bufferLength)
    {
      bytes := [];
      if from < tail {
        var size := Min(tail - from, bufferLength);
        bytes := buffer[from..from + size];
      } else if tail < from {
        var size := Min(buffer.Length - from, bufferLength);
        bytes := buffer[from..from + size];
        var sizeSecondary := Min(tail, bufferLength - size);
        if sizeSecondary > 0 {
          bytes := bytes + buffer[..sizeSecondary];
        }
      }
    }

    /** A reader that was not overtaken gets the next bytes of the stream, as many as fit. */
    method Read(bufferLength: nat, offset: int) returns (bytes: seq<char>, offset': int)
      requires Valid() && -1 <= offset < buffer.Length
      ensures |bytes| <= bufferLength && 0 <= offset' < buffer.Length
      ensures forall pos :: ReadsOn(buffer.Length, stream, offset, pos, bufferLength, bytes, offset')
    {
      hide Window, TwoCopies, ReadsOn;
      WindowSize(buffer.Length, buffer[..], head, tail, stream);
      var from: nat := if offset == -1 then head else offset;
      bytes := Fetch(from, bufferLength);
      offset' := (from + |bytes|) % buffer.Length;
      forall pos ensures ReadsOn(buffer.Length, stream, offset, pos, bufferLength, bytes, offset') {
        Reads(buffer.Length, buffer[..], head, tail, stream, offset, pos, bufferLength);
      }
    }

    /** Reading in chunks until a short one gives the whole content, once. */
    method Print(bufferLength: nat) returns (printed: seq<char>)
      requires Valid() && bufferLength > 0
      ensures printed == Content()
    {
      hide Window, Attached;
      var offset := -1;
      printed := [];
      WindowSize(buffer.Length, buffer[..], head, tail, stream);
      ghost var start := Start(|stream|, buffer.Length);
      FromHead(buffer.Length, |stream|);
      while |printed| < buffer.Length
        invariant -1 <= offset < buffer.Length && start + |printed| <= |stream|
        invariant Attached(buffer.Length, |stream|, offset, start + |printed|)
        invariant printed == stream[start..start + |printed|]
        decreases buffer.Length - |printed|
      {
        var bytes;
        ghost var was := offset;
        bytes, offset := Read(bufferLength, offset);
        assert ReadsOn(buffer.Length, stream, was, start + |printed|, bufferLength, bytes, offset);
        if |bytes| == 0 {
          break;
        }
        assert stream[start..start + |printed| + |bytes|]
          == stream[start..start + |printed|] + stream[start + |printed|..start + |printed| + |bytes|];
        printed := printed + bytes;
        if |bytes| < bufferLength {
          break;
        }
      }
    }
  }

  lemma AttachedAt(n: nat, data: seq<char>, head: nat, tail: nat, stream: seq<char>, offset: int, pos: nat)
    requires Window(n, data, head, tail, stream) && Attached(n, |stream|, offset, pos)
    ensures (if offset == -1 then head else offset) == At(pos, n) && Start(|stream|, n) <= pos <= |stream|
  {
    hide At;
  }

  lemma OffsetMoves(n: nat, total: nat, pos: nat, size: nat)
    requires n > 0 && Start(total, n) <= pos && pos + size <= total
    ensures Attached(n, total, (At(pos, n) + size) % n, pos + size)
  {
    Wrapped(pos, size, n);
    hide At;
  }

  lemma Reads(n: nat, data: seq<char>, head: nat, tail: nat, stream: seq<char>, offset: int, pos: nat, len: nat)
    requires Window(n, data, head, tail, stream) && n == |data| > 0 && -1 <= offset < n && head < n && tail < n
    ensures var from := if offset == -1 then head else offset;
      var bytes := TwoCopies(data, from, tail, len);
      ReadsOn(n, stream, offset, pos, len, bytes, (from + |bytes|) % n)
  {
    hide Window, TwoCopies, At;
    if Attached(n, |stream|, offset, pos) {
      AttachedAt(n, data, head, tail, stream, offset, pos);
      hide Attached;
      CopiesAreNext(n, data, head, tail, stream, pos, len);
      OffsetMoves(n, |stream|, pos, Min(len, |stream| - pos));
    }
  }

  lemma FromHead(n: nat, total: nat)
    requires n > 0
    ensures Attached(n, total, -1, Start(total, n))
  {
  }

  lemma WindowSize(n: nat, data: seq<char>, head: nat, tail: nat, stream: seq<char>)
    requires Window(n, data, head, tail, stream)
    ensures n == |data| > 0 && head < n && tail < n
  {
  }
}
