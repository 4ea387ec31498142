/** The double-ended byte buffer that values are written to and read from: a vector
    of bytes and the position of the first byte not read yet. */
module DataStreams {
  import opened Bytes

  /** A read in the code's own arithmetic: the bytes delivered and the buffer left, or an
      access past the end of the vector. */
  datatype Attempt = Got(bytes: seq<Byte>, after: Buffer) | OutOfBounds

  /** The buffer as a value; each method below is proved to compute one of these
      functions. */
  datatype Buffer = Buffer(vch: seq<Byte>, pos: nat) {

    predicate Valid() {
      pos <= |vch| && pos < TWO_TO_32
    }

    /** The bytes that are still to be read. */
    function Unread(): seq<Byte>
      requires Valid()
    {
      vch[pos..]
    }

    /** Reading up to the end clears the buffer. */
    function Read(n: nat): Buffer
      requires Valid()
    {
      if n >= |Unread()| then Buffer([], 0) else Buffer(vch, pos + n)
    }

    /** The code computes the next position in 32 bits and compares that one with the
        length. */
    function TryRead(n: nat): Attempt
      requires Valid()
    {
      var next := (pos + n) % TWO_TO_32;
      if next > |vch| then Got(vch[pos..] + Zeros(n - (|vch| - pos)), Buffer([], 0))
      else if pos + n > |vch| then OutOfBounds
      else Got(vch[pos..pos + n], if next == |vch| then Buffer([], 0) else Buffer(vch, next))
    }

    /** The 32-bit position does not wrap around, or so far that it still lies behind the
        end. */
    predicate InReach(n: nat) {
      pos + n < TWO_TO_32 || (pos + n) % TWO_TO_32 > |vch|
    }

    function Rewind(n: nat): Buffer
      requires Valid()
    {
      if n > pos then this else Buffer(vch, pos - n)
    }
  }

  /** The bytes delivered and the bytes left are what a read of `n` is to deliver and to
      leave. */
  ghost predicate IsRead(r: Attempt, b: Buffer, n: nat)
    requires b.Valid()
  {
    && r.Got? && r.bytes == Taken(b.Unread(), n)
    && r.after.Valid() && r.after.Unread() == Rest(b.Unread(), n)
  }

  lemma ReadInReach(b: Buffer, n: nat)
    requires b.Valid() && b.InReach(n)
    ensures b.TryRead(n) == Got(Taken(b.Unread(), n), b.Read(n))
    ensures IsRead(b.TryRead(n), b, n)
  {
    var next := (b.pos + n) % TWO_TO_32;
    assert next <= b.pos + n;
    if b.pos + n < TWO_TO_32 {
      assert next == b.pos + n;
    }
  }

  lemma ReadOutOfReach(b: Buffer, n: nat)
    requires b.Valid() && !b.InReach(n)
    ensures !IsRead(b.TryRead(n), b, n)
  {
    var next := (b.pos + n) % TWO_TO_32;
    assert next < b.pos + n && next <= |b.vch|;
    if b.pos + n <= |b.vch| {
      assert |Rest(b.Unread(), n)| == |b.vch| - (b.pos + n);
      assert b.TryRead(n).after.Valid() ==> |b.TryRead(n).after.Unread()| != |b.vch| - (b.pos + n);
    }
  }

  /** A read delivers the next `n` bytes, padded with zeros, and leaves what is behind
      them, if and only if the 32-bit position comes out right. */
  lemma ReadIff(b: Buffer, n: nat)
    requires b.Valid()
    ensures IsRead(b.TryRead(n), b, n) <==> b.InReach(n)
    ensures b.InReach(n) ==> b.TryRead(n).after == b.Read(n)
  {
    hide IsRead;
    if b.InReach(n) {
      ReadInReach(b, n);
    } else {
      ReadOutOfReach(b, n);
    }
  }

  lemma ReadKeepsValid(b: Buffer, n: nat)
    requires b.Valid() && b.InReach(n)
    ensures b.Read(n).Valid()
    ensures b.Read(n).Unread() == Rest(b.Unread(), n)
  {
  }

  /** A read can be taken back exactly when it stopped short of the end, or when there
      was nothing in the buffer to be lost. */
  lemma RewindUndoesRead(b: Buffer, n: nat)
    requires b.Valid() && b.InReach(n)
    ensures b.Read(n).Valid()
    ensures b.Read(n).Rewind(n).Valid()
    ensures b.Read(n).Rewind(n).Unread() == b.Unread() <==> n < |b.Unread()| || b.Unread() == []
  {
  }

  /** Serialising one stream into another writes the whole vector; it concatenates the
      unread bytes, as it is meant to, exactly when nothing has been read. */
  lemma WholeIsUnread(b: Buffer)
    requires b.Valid()
    ensures b.vch == b.Unread() <==> b.pos == 0
  {
  }

  class CDataStream {
    var vch: seq<Byte>
    var nReadPos: nat

    ghost predicate Valid()
      reads this
    {
      State().Valid()
    }

    ghost function State(): Buffer
      reads this
    {
      Buffer(vch, nReadPos)
    }

    /** The byte queue this stream is. */
    ghost function View(): seq<Byte>
      requires Valid()
      reads this
    {
      State().Unread()
    }

    constructor ()
      ensures Valid() && View() == [] && nReadPos == 0
    {
      vch, nReadPos := [], 0;
    }

    constructor Of(bytes: seq<Byte>)
      ensures Valid() && View() == bytes && nReadPos == 0
    {
      vch, nReadPos := bytes, 0;
    }

    method Write(pch: seq<Byte>)
      requires Valid()
      modifies this`vch
      ensures Valid() && View() == old(View()) + pch
    {
      vch := vch + pch;
    }

    /** The precondition is what `ReadIff` shows to be needed. */
    method Read(nSize: nat) returns (pch: seq<Byte>)
      requires Valid() && State().InReach(nSize)
      modifies this
      ensures Valid() && State() == old(State()).Read(nSize)
      ensures pch == Taken(old(View()), nSize)
      ensures View() == Rest(old(View()), nSize)
      ensures nReadPos <= old(nReadPos) + nSize
    {
      var nReadPosNext := (nReadPos + nSize) % TWO_TO_32;
      if nReadPosNext >= |vch| {
        pch := vch[nReadPos..];
        if nReadPosNext > |vch| {
          pch := pch + Zeros(nSize - (|vch| - nReadPos));
        }
        nReadPos := 0;
        vch := [];
        return;
      }
      pch := vch[nReadPos..nReadPosNext];
      nReadPos := nReadPosNext;
    }

    method Rewind(n: nat) returns (ok: bool)
      requires Valid()
      modifies this`nReadPos
      ensures Valid() && State() == old(State()).Rewind(n)
      ensures ok <==> n <= old(nReadPos)
      ensures View() == if ok then old(vch)[old(nReadPos) - n..old(nReadPos)] + old(View()) else old(View())
    {
      if n > nReadPos {
        return false;
      }
      nReadPos := nReadPos - n;
      return true;
    }

    method Compact()
      requires Valid()
      modifies this
      ensures Valid() && View() == old(View()) && nReadPos == 0
    {
      vch := vch[nReadPos..];
      nReadPos := 0;
    }

    /** Inserts before the unread byte number `at`; at the front, room left by bytes
        already read is used again. */
    method Insert(at: nat, data: seq<Byte>)
      requires Valid() && at <= |View()| && |data| < TWO_TO_32
      modifies this
      ensures Valid() && View() == old(View())[..at] + data + old(View())[at..]
    {
      if at == 0 && |data| <= nReadPos {
        nReadPos := nReadPos - |data|;
        vch := vch[..nReadPos] + data + vch[nReadPos + |data|..];
      } else {
        vch := vch[..nReadPos + at] + data + vch[nReadPos + at..];
      }
    }

    method EraseOne(at: nat)
      requires Valid() && at < |View()| && nReadPos + 1 < TWO_TO_32
      modifies this
      ensures Valid() && View() == old(View())[..at] + old(View())[at + 1..]
    {
      if at == 0 {
        nReadPos := nReadPos + 1;
        if nReadPos >= |vch| {
          nReadPos := 0;
          vch := [];
        }
      } else {
        vch := vch[..nReadPos + at] + vch[nReadPos + at + 1..];
      }
    }

    method Erase(first: nat, last: nat)
      requires Valid() && first <= last <= |View()| && nReadPos + last < TWO_TO_32
      modifies this
      ensures Valid() && View() == old(View())[..first] + old(View())[last..]
    {
      if first == 0 {
        if last == |vch| - nReadPos {
          nReadPos := 0;
          vch := [];
        } else {
          nReadPos := nReadPos + last;
        }
      } else {
        vch := vch[..nReadPos + first] + vch[nReadPos + last..];
      }
    }

    /** `operator+=`. */
    method Append(other: CDataStream)
      requires Valid() && other.Valid()
      modifies this`vch
      ensures Valid() && View() == old(View()) + old(other.View())
    {
      vch := vch + other.vch[other.nReadPos..];
    }

    /** Serialising this stream into another one. */
    method SerializeInto(s: CDataStream)
      requires Valid() && s.Valid() && s != this
      modifies s`vch
      ensures s.Valid() && s.View() == old(s.View()) + vch
    {
      if vch != [] {
        s.Write(vch);
      }
    }

    method GetAndClear(data: seq<Byte>) returns (data': seq<Byte>)
      requires Valid()
      modifies this
      ensures Valid() && data' == data + old(View()) && View() == []
    {
      data' := data + vch[nReadPos..];
      vch, nReadPos := [], 0;
    }
  }
}
