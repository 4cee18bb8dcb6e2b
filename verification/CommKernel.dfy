/**
Buffered communication with the core device (reader and writer interface of class `CommKernel` in
artiq/coredevice/comm_kernel.py).

The socket is modelled by the bytes still to come from the device and by the bytes handed over to
it; `recv` returns any non-empty piece of what is to come, up to the size it was asked for.
*/
module CommKernels {
  import opened RpcTags

  const SYNC: byte := 0x5a
  const RECV_SIZE := 8192
  const FLUSH_SIZE := 4096

  /** The values of the enumeration `Reply`. */
  const REPLIES: set<byte> := {2, 5, 6, 7, 8, 9, 10, 15}

  /** What `_read_header` finds: a message, a type that is not one, or the end of the stream. */
  datatype Header = Message(raw_type: byte) | UnknownType(raw_type: byte) | ConnectionClosed

  function HeaderOf(b: byte): (header: Header)
    ensures header == Message(b) <==> b == 2 || 5 <= b <= 10 || b == 15
    ensures header == Message(b) || header == UnknownType(b)
  {
    if b in REPLIES then Message(b) else UnknownType(b)
  }

  /** The place right after the first run of four synchronization bytes. */
  ghost predicate SyncedAt(s: seq<byte>, n: nat) {
    && RunEndsAt(s, n)
    && forall k | 0 <= k < n :: !RunEndsAt(s, k)
  }

  ghost predicate RunEndsAt(s: seq<byte>, n: nat) {
    4 <= n <= |s| && s[n - 4] == s[n - 3] == s[n - 2] == s[n - 1] == SYNC
  }

  /** The number of synchronization bytes at the end of the first `n` bytes, up to four. */
  ghost predicate RunLength(s: seq<byte>, n: nat, c: nat)
    requires n <= |s|
  {
    && c <= 4 && c <= n
    && (forall k | n - c <= k < n :: s[k] == SYNC)
    && (c < n && c < 4 ==> s[n - c - 1] != SYNC)
  }

  class CommKernel {
    var readBuffer: seq<byte>
    var writeBuffer: seq<byte>
    var readType: byte

    /** The socket. */
    var incoming: seq<byte>
    var outgoing: seq<byte>

    /** What the device has sent and nobody has read. */
    ghost function Unread(): seq<byte>
      reads this
    {
      readBuffer + incoming
    }

    /** What has been written since the connection was opened. */
    ghost function Written(): seq<byte>
      reads this
    {
      outgoing + writeBuffer
    }

    constructor (stream: seq<byte>)
      ensures Unread() == stream && Written() == []
    {
      readBuffer, writeBuffer, readType, incoming, outgoing := [], [], 0, stream, [];
    }

    // ----- reading -----

    /** `socket.recv`: any fragmentation is possible; nothing means that the connection closed. */
    method Recv(size: nat) returns (piece: seq<byte>)
      requires size > 0
      modifies this`incoming
      ensures old(incoming) == piece + incoming && |piece| <= size
      ensures piece == [] <==> old(incoming) == []
    {
      if incoming == [] {
        piece := [];
      } else {
        var n :| 1 <= n <= |incoming| && n <= size;
        piece, incoming := incoming[..n], incoming[n..];
      }
    }

    /** `_read`: the next `length` bytes of the stream, however it is fragmented, or an error if the
        connection closes before. */
    method Read(length: nat) returns (ok: bool, result: seq<byte>)
      modifies this`readBuffer, this`incoming
      ensures ok <==> length <= |old(Unread())|
      ensures ok ==> result == old(Unread())[..length] && Unread() == old(Unread())[length..]
      ensures !ok ==> Unread() == old(Unread())
    {
      while |readBuffer| < length
        invariant Unread() == old(Unread())
        decreases |incoming|
      {
        var piece := Recv(RECV_SIZE);
        if piece == [] {
          return false, [];
        }
        readBuffer := readBuffer + piece;
      }
      ghost var stream := Unread();
      result := readBuffer[..length];
      readBuffer := readBuffer[length..];
      assert stream[..length] == result && stream[length..] == Unread();
      ok := true;
    }

    method ReadByte() returns (ok: bool, b: byte)
      modifies this`readBuffer, this`incoming
      ensures ok <==> old(Unread()) != []
      ensures ok ==> b == old(Unread())[0] && Unread() == old(Unread())[1..]
      ensures !ok ==> Unread() == old(Unread())
    {
      var r;
      ok, r := Read(1);
      b := if ok then r[0] else 0;
    }

    /** `_read_header`: an error if the stream ends before a header, or if the type is not that of a
        reply, which is consumed all the same. */
    method ReadHeader() returns (header: Header)
      modifies this`readBuffer, this`incoming, this`readType
      ensures header == ConnectionClosed <==> !exists n: nat :: SyncedAt(old(Unread()), n) && n < |old(Unread())|
      ensures header != ConnectionClosed ==>
                exists n: nat :: SyncedAt(old(Unread()), n) && n < |old(Unread())| &&
                  header == HeaderOf(old(Unread())[n]) && Unread() == old(Unread())[n + 1..]
      ensures readType == if header.Message? then header.raw_type else old(readType)
    {
      ghost var s := Unread();
      ghost var n: nat;
      var ok: bool, b: byte;
      ok, n := Synchronize();
      if !ok {
        return ConnectionClosed;
      }
      ok, b := ReadByte();
      if !ok {
        forall k | SyncedAt(s, k) ensures k == n {
          SyncIsUnique(s, k, n);
        }
        return ConnectionClosed;
      }
      header := HeaderOf(b);
      if header.Message? {
        readType := b;
      }
    }

    /** The loop of `_read_header`: it reads past the first four synchronization bytes in a row. */
    method Synchronize() returns (ok: bool, ghost n: nat)
      modifies this`readBuffer, this`incoming
      ensures ok ==> SyncedAt(old(Unread()), n) && Unread() == old(Unread())[n..]
      ensures !ok ==> forall k: nat :: !SyncedAt(old(Unread()), k)
    {
      ghost var s := Unread();
      n := 0;
      var count := 0;
      var b: byte;
      while count < 4
        invariant n <= |s| && Unread() == s[n..] && count <= 4
        invariant RunLength(s, n, count)
        invariant forall k | 0 <= k < n :: !RunEndsAt(s, k)
        decreases |s| - n
      {
        assert !RunEndsAt(s, n);
        ok, b := ReadByte();
        if !ok {
          NeverSynced(s);
          return;
        }
        assert b == s[n];
        n := n + 1;
        count := if b == SYNC then count + 1 else 0;
      }
      ok := true;
    }

    // ----- writing -----

    method Write(data: seq<byte>)
      modifies this`writeBuffer, this`outgoing
      ensures Written() == old(Written()) + data
      ensures if |old(writeBuffer)| + |data| > 4096 then writeBuffer == [] else outgoing == old(outgoing)
    {
      writeBuffer := writeBuffer + data;
      assert Written() == old(Written()) + data;
      if |writeBuffer| > FLUSH_SIZE {
        Flush();
      }
    }

    method Flush()
      modifies this`writeBuffer, this`outgoing
      ensures Written() == old(Written()) && writeBuffer == []
    {
      outgoing := outgoing + writeBuffer;
      writeBuffer := [];
    }
  }

  lemma NeverSynced(s: seq<byte>)
    requires forall k | 0 <= k <= |s| :: !RunEndsAt(s, k)
    ensures forall n: nat :: !SyncedAt(s, n)
  {
  }

  lemma SyncIsUnique(s: seq<byte>, m: nat, n: nat)
    requires SyncedAt(s, m) && SyncedAt(s, n)
    ensures m == n
  {
  }
}
