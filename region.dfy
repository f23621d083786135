/** A region of bytes (`elle::standalone::Region`) and its archive form: the
    size as a `uint64_t`, then exactly that many bytes. The binary archive
    writes the `uint64_t` as eight little-endian bytes. */
module Standalone {
  import opened Elle

  /** `256^k`. */
  function Power256(k: nat): (p: nat)
    ensures p >= 1
  {
    if k == 0 then 1 else 256 * Power256(k - 1)
  }

  lemma Power256Is64Bits()
    ensures Power256(8) == Natural64Limit
  {
  }

  /** The `width` low-order bytes of `n`, least significant first. */
  function LittleEndian(n: nat, width: nat): (r: seq<Byte>)
    ensures |r| == width
  {
    if width == 0 then [] else [(n % 256) as Byte] + LittleEndian(n / 256, width - 1)
  }

  /** The number whose little-endian bytes are `s`. */
  function FromLittleEndian(s: seq<Byte>): (n: nat)
    ensures n < Power256(|s|)
  {
    if s == [] then 0 else s[0] as nat + 256 * FromLittleEndian(s[1..])
  }

  lemma {:induction false} LittleEndianRoundTrip(n: nat, width: nat)
    requires n < Power256(width)
    ensures FromLittleEndian(LittleEndian(n, width)) == n
  {
    if width > 0 {
      LittleEndianRoundTrip(n / 256, width - 1);
      assert LittleEndian(n, width)[1..] == LittleEndian(n / 256, width - 1);
    }
  }

  lemma {:induction false} FromLittleEndianRoundTrip(s: seq<Byte>)
    ensures LittleEndian(FromLittleEndian(s), |s|) == s
  {
    if s != [] {
      var n := FromLittleEndian(s);
      assert n % 256 == s[0] as nat && n / 256 == FromLittleEndian(s[1..]);
      FromLittleEndianRoundTrip(s[1..]);
    }
  }

  /** What the save half of the region serialiser appends to an archive. */
  function EncodeRegion(bytes: seq<Byte>): (r: seq<Byte>)
    requires |bytes| < Natural64Limit
  {
    LittleEndian(|bytes|, 8) + bytes
  }

  /** What the load half reads from the front of `s`, ignoring allocation:
      the region's bytes and the number of archive bytes consumed, or `None`
      when the archive ends too early. */
  function DecodeRegion(s: seq<Byte>): Option<(seq<Byte>, nat)>
  {
    if |s| < 8 then None
    else
      var size := FromLittleEndian(s[..8]);
      if |s| - 8 < size then None else Some((s[8..8 + size], 8 + size))
  }

  /** Loading what Save wrote gives back the same bytes, whatever follows. */
  lemma RegionRoundTrip(bytes: seq<Byte>, rest: seq<Byte>)
    requires |bytes| < Natural64Limit
    ensures DecodeRegion(EncodeRegion(bytes) + rest) == Some((bytes, 8 + |bytes|))
  {
    var s := EncodeRegion(bytes) + rest;
    assert s[..8] == LittleEndian(|bytes|, 8);
    Power256Is64Bits();
    LittleEndianRoundTrip(|bytes|, 8);
    assert s[8..8 + |bytes|] == bytes;
  }

  /** Conversely, whatever loads successfully was written by Save. */
  lemma DecodedIsEncoded(s: seq<Byte>)
    requires DecodeRegion(s).Some?
    ensures |DecodeRegion(s).value.0| < Natural64Limit
    ensures s[..DecodeRegion(s).value.1] == EncodeRegion(DecodeRegion(s).value.0)
  {
    var (bytes, used) := DecodeRegion(s).value;
    Power256Is64Bits();
    FromLittleEndianRoundTrip(s[..8]);
    assert s[..used] == s[..8] + s[8..used];
  }

  /** An archive being written: the bytes saved so far. */
  class OutputArchive {
    var bytes: seq<Byte>

    constructor ()
      ensures bytes == []
    {
      bytes := [];
    }

    /** `archive << static_cast<uint64_t>(n)`. */
    method SaveNatural64(n: nat)
      requires n < Natural64Limit
      modifies this
      ensures bytes == old(bytes) + LittleEndian(n, 8)
    {
      bytes := bytes + LittleEndian(n, 8);
    }

    /** `archive.SaveBinary(contents, size)`: the first `size` bytes of the buffer. */
    method SaveBinary(contents: array<Byte>, size: nat)
      requires size <= contents.Length
      modifies this
      ensures bytes == old(bytes) + contents[..size]
    {
      var i := 0;
      while i < size
        invariant 0 <= i <= size
        invariant bytes == old(bytes) + contents[..i]
      {
        bytes := bytes + [contents[i]];
        i := i + 1;
      }
    }
  }

  /** An archive being read: its bytes and the read position. */
  class InputArchive {
    const bytes: seq<Byte>
    var pos: nat

    ghost predicate Valid()
      reads this
    {
      pos <= |bytes|
    }

    /** The bytes not read yet. */
    function Rest(): seq<Byte>
      reads this
      requires Valid()
    {
      bytes[pos..]
    }

    constructor (bytes: seq<Byte>)
      ensures Valid() && this.bytes == bytes && pos == 0
    {
      this.bytes := bytes;
      pos := 0;
    }

    /** `archive >> size` for a `uint64_t`; fails when fewer than eight bytes remain. */
    method LoadNatural64() returns (r: Option<nat>)
      requires Valid()
      modifies this
      ensures Valid()
      ensures |old(Rest())| < 8 ==> r == None && pos == old(pos)
      ensures |old(Rest())| >= 8 ==> r == Some(FromLittleEndian(old(Rest())[..8])) && pos == old(pos) + 8
    {
      if |bytes| - pos < 8 {
        return None;
      }
      assert bytes[pos..][..8] == bytes[pos..pos + 8];
      r := Some(FromLittleEndian(bytes[pos..pos + 8]));
      pos := pos + 8;
    }

    /** `archive.LoadBinary(contents, size)`: copies the next `size` bytes
        into the buffer; fails, copying nothing, when fewer remain. */
    method LoadBinary(contents: array<Byte>, size: nat) returns (ok: bool)
      requires Valid()
      requires size <= contents.Length
      modifies this, contents
      ensures Valid()
      ensures ok == (size <= |old(Rest())|)
      ensures ok ==> contents[..size] == old(Rest())[..size] && pos == old(pos) + size
      ensures ok ==> contents[size..] == old(contents[size..])
      ensures !ok ==> contents[..] == old(contents[..]) && pos == old(pos)
    {
      if |bytes| - pos < size {
        return false;
      }
      var i := 0;
      while i < size
        invariant 0 <= i <= size
        invariant pos == old(pos)
        invariant contents[..i] == bytes[pos..pos + i]
        invariant contents[size..] == old(contents[size..])
      {
        contents[i] := bytes[pos + i];
        i := i + 1;
      }
      pos := pos + size;
      return true;
    }
  }

  /** A region: a byte buffer of which the first `size` bytes are in use. */
  class Region {
    var contents: array<Byte>
    var size: nat

    ghost predicate Valid()
      reads this
    {
      size <= contents.Length && size < Natural64Limit
    }

    /** The bytes the region holds. */
    function Bytes(): seq<Byte>
      reads this, contents
      requires Valid()
    {
      contents[..size]
    }

    /** The default region: empty. */
    constructor ()
      ensures Valid() && fresh(contents) && Bytes() == []
    {
      contents := new Byte[0];
      size := 0;
    }

    /** Sets the region up to receive `capacity` bytes: a fresh, empty buffer
        of that capacity, unless the allocator cannot provide it. */
    method Prepare(capacity: nat, available: nat) returns (ok: bool)
      modifies this
      ensures ok == (capacity <= available)
      ensures ok ==> fresh(contents) && contents.Length == capacity && size == 0
      ensures !ok ==> contents == old(contents) && size == old(size)
    {
      if capacity > available {
        return false;
      }
      contents := new Byte[capacity];
      size := 0;
      return true;
    }

    /** Releases the region and re-constructs it in place: default-constructed
        when `source` is null, a copy of `*source` otherwise. */
    method Recycle(source: Region?)
      requires source != this
      requires source != null ==> source.Valid()
      modifies this
      ensures Valid() && fresh(contents)
      ensures source == null ==> Bytes() == []
      ensures source != null ==> Bytes() == source.Bytes()
    {
      if source == null {
        contents := new Byte[0];
        size := 0;
      } else {
        var copy := new Byte[source.size];
        var i := 0;
        while i < source.size
          invariant 0 <= i <= source.size
          invariant copy[..i] == source.contents[..i]
        {
          copy[i] := source.contents[i];
          i := i + 1;
        }
        contents := copy;
        size := source.size;
      }
    }
  }

  /** The save half of the region serialiser (serialiser version 0 only). */
  method Save(archive: OutputArchive, value: Region, version: nat)
    requires version == 0
    requires value.Valid()
    modifies archive
    ensures archive.bytes == old(archive.bytes) + EncodeRegion(value.Bytes())
  {
    archive.SaveNatural64(value.size);
    archive.SaveBinary(value.contents, value.size);
  }

  /** How the load half of the region serialiser ended. */
  datatype LoadStatus = Loaded | TruncatedSize | PrepareFailed | TruncatedContents

  /** The load half of the region serialiser (serialiser version 0 only):
      read the size, prepare the region for it, read that many bytes into
      it, then set its size. `available` is what the allocator can provide. */
  method Load(archive: InputArchive, value: Region, version: nat, available: nat) returns (status: LoadStatus)
    requires version == 0
    requires archive.Valid() && value.Valid()
    modifies archive, value
    ensures archive.Valid() && value.Valid()
    ensures status == TruncatedSize <==> |old(archive.Rest())| < 8
    ensures status == TruncatedSize ==>
              archive.pos == old(archive.pos) && value.contents == old(value.contents) && value.size == old(value.size)
    ensures status == PrepareFailed <==>
              |old(archive.Rest())| >= 8 && FromLittleEndian(old(archive.Rest())[..8]) > available
    ensures status == PrepareFailed ==>
              archive.pos == old(archive.pos) + 8 && value.contents == old(value.contents) && value.size == old(value.size)
    ensures status == TruncatedContents <==>
              && |old(archive.Rest())| >= 8 && FromLittleEndian(old(archive.Rest())[..8]) <= available
              && DecodeRegion(old(archive.Rest())).None?
    ensures status == TruncatedContents ==> archive.pos == old(archive.pos) + 8
    ensures status == Loaded <==>
              DecodeRegion(old(archive.Rest())).Some? && FromLittleEndian(old(archive.Rest())[..8]) <= available
    ensures status == Loaded ==>
              DecodeRegion(old(archive.Rest())) == Some((value.Bytes(), archive.pos - old(archive.pos)))
  {
    ghost var rest := archive.Rest();
    Power256Is64Bits();
    var size := archive.LoadNatural64();
    if size.None? {
      return TruncatedSize;
    }
    var prepared := value.Prepare(size.value, available);
    if !prepared {
      return PrepareFailed;
    }
    var read := archive.LoadBinary(value.contents, size.value);
    if !read {
      return TruncatedContents;
    }
    assert rest[8..][..size.value] == rest[8..8 + size.value];
    value.size := size.value;
    return Loaded;
  }

  /** Saving a region into a fresh archive and loading it back into a fresh
      region gives the same bytes, when the allocator can hold them. */
  method SaveThenLoad(value: Region, available: nat) returns (status: LoadStatus, loaded: Region)
    requires value.Valid()
    requires value.size <= available
    ensures status == Loaded && loaded.Valid() && loaded.Bytes() == value.Bytes()
  {
    var output := new OutputArchive();
    Save(output, value, 0);
    var input := new InputArchive(output.bytes);
    loaded := new Region();
    RegionRoundTrip(value.Bytes(), []);
    assert input.Rest() == EncodeRegion(value.Bytes()) + [];
    status := Load(input, loaded, 0, available);
  }
}
