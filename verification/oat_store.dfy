/**
 * The dex2oat key-value-store rewrite: `ModifyStoreInPlace` finds the first
 * " --inline-max-code-units=0" in the OAT header's key-value store and either
 * zero-fills it (when the field is padded) or deletes it by shifting the rest
 * of the store forward; the hooks on `OatHeader` then report or write the
 * store size that matches.  Memory is a byte array; the header's fields are
 * read little-endian.
 */
module OatStore {
  import opened Scopes

  type byte = x: int | 0 <= x < 0x100
  type uint32 = x: int | 0 <= x < 0x1_0000_0000

  /** `param_to_remove`: the bytes of " --inline-max-code-units=0". */
  const ParamToRemove: seq<byte> :=
    [32, 45, 45, 105, 110, 108, 105, 110, 101, 45, 109, 97, 120, 45, 99, 111, 100, 101, 45, 117, 110, 105, 116, 115, 61, 48]

  /** The pattern's length. */
  const ParamLength: nat := 26

  /** `offsetof(OatHeader, key_value_store_size_)`: two 4-byte arrays and fifteen 32-bit fields precede it. */
  const KeyValueStoreSizeOffset: nat := 68
  /** `offsetof(OatHeader, key_value_store_)`. */
  const KeyValueStoreOffset: nat := 72

  /** Unsigned 32-bit arithmetic: the value modulo 2^32. */
  function Wrap(x: int): uint32
  {
    x % 0x1_0000_0000
  }

  /** Wrapping leaves a value that already fits unchanged. */
  lemma WrapFits(x: int)
    requires 0 <= x < 0x1_0000_0000
    ensures Wrap(x) == x
  {
  }

  // ---------------------------------------------------------------------
  // 32-bit fields in memory
  // ---------------------------------------------------------------------

  /** A `uint32_t` read from four bytes, least significant first. */
  function LoadU32(b: seq<byte>): uint32
    requires |b| == 4
  {
    var b0: int, b1: int, b2: int, b3: int := b[0], b[1], b[2], b[3];
    b0 + 0x100 * b1 + 0x1_0000 * b2 + 0x100_0000 * b3
  }

  /** The four bytes a `uint32_t` store writes, least significant first. */
  function StoreU32(n: uint32): (b: seq<byte>)
    ensures |b| == 4
  {
    [n % 0x100, (n / 0x100) % 0x100, (n / 0x1_0000) % 0x100, n / 0x100_0000]
  }

  lemma LoadStoreU32(n: uint32)
    ensures LoadU32(StoreU32(n)) == n
  {
    var q0 := n / 0x100;
    var q1 := q0 / 0x100;
    assert n == n % 0x100 + 0x100 * q0;
    assert q0 == q0 % 0x100 + 0x100 * q1;
    assert q1 == q1 % 0x100 + 0x100 * (q1 / 0x100);
    assert n / 0x1_0000 == q1;
    assert n / 0x100_0000 == q1 / 0x100;
  }

  lemma StoreLoadU32(b: seq<byte>)
    requires |b| == 4
    ensures StoreU32(LoadU32(b)) == b
  {
    var n := LoadU32(b);
    var b1: int, b2: int, b3: int := b[1], b[2], b[3];
    assert n / 0x100 == b1 + 0x100 * b2 + 0x1_0000 * b3;
    assert n / 0x1_0000 == b2 + 0x100 * b3;
    assert n / 0x100_0000 == b3;
  }

  // ---------------------------------------------------------------------
  // The rewrite as a function of the store's bytes
  // ---------------------------------------------------------------------

  /** `p` occurs in `s` starting at `k`. */
  predicate OccursAt(s: seq<byte>, p: seq<byte>, k: int)
  {
    0 <= k && k + |p| <= |s| && s[k..k + |p|] == p
  }

  /** `std::search` from position `i` on: the first occurrence, or None for the end iterator. */
  function SearchFrom(s: seq<byte>, p: seq<byte>, i: nat): (r: Option<nat>)
    ensures r.Some? ==> i <= r.value && OccursAt(s, p, r.value)
    ensures r.Some? ==> forall k :: i <= k < r.value ==> !OccursAt(s, p, k)
    ensures r.None? ==> forall k :: i <= k ==> !OccursAt(s, p, k)
    decreases |s| - i
  {
    if i + |p| > |s| then None
    else if s[i..i + |p|] == p then Some(i)
    else SearchFrom(s, p, i + 1)
  }

  /** `std::search(store_begin, store_end, param_to_remove...)`. */
  function Search(s: seq<byte>): Option<nat>
  {
    SearchFrom(s, ParamToRemove, 0)
  }

  /** The byte after the one that follows the pattern exists and is zero. */
  predicate HasPadding(s: seq<byte>, pos: nat)
  {
    pos + ParamLength + 1 < |s| && s[pos + ParamLength + 1] == 0
  }

  /** The store's new bytes and `ModifyStoreInPlace`'s result. */
  datatype Rewritten = Rewritten(bytes: seq<byte>, resized: bool)

  function Zeros(n: nat): (z: seq<byte>)
    ensures |z| == n && forall i :: 0 <= i < n ==> z[i] == 0
  {
    if n == 0 then [] else Zeros(n - 1) + [0]
  }

  /**
   * What `ModifyStoreInPlace` does to a store of `|s|` bytes.  Only the first
   * occurrence is acted on; the padding test looks at the second byte after
   * the pattern; the shift leaves the last bytes as they were.
   */
  function Rewrite(s: seq<byte>): (r: Rewritten)
    ensures |r.bytes| == |s|
    ensures Search(s).None? ==> r == Rewritten(s, false)
    ensures r.resized <==> Search(s).Some? && !HasPadding(s, Search(s).value)
  {
    var L := ParamLength;
    match Search(s)
    case None => Rewritten(s, false)
    case Some(pos) =>
      if HasPadding(s, pos) then Rewritten(s[..pos] + Zeros(L) + s[pos + L..], false)
      else Rewritten(s[..pos] + s[pos + L..] + s[|s| - L..], true)
  }

  /** With padding after it, the occurrence is overwritten with zeros and every other byte stays. */
  lemma ZeroFilledAt(s: seq<byte>, i: nat)
    requires Search(s).Some? && HasPadding(s, Search(s).value) && i < |s|
    ensures var pos := Search(s).value;
      Rewrite(s).bytes[i] == if pos <= i < pos + ParamLength then 0 else s[i]
  {
    var pos := Search(s).value;
    var L := ParamLength;
    var z := Zeros(L);
    assert Rewrite(s).bytes == s[..pos] + z + s[pos + L..];
    if i < pos {
      assert (s[..pos] + z + s[pos + L..])[i] == s[..pos][i];
    } else if i < pos + L {
      assert (s[..pos] + z + s[pos + L..])[i] == z[i - pos];
    } else {
      assert (s[..pos] + z + s[pos + L..])[i] == s[pos + L..][i - pos - L];
    }
  }

  /** Without padding, the bytes after the occurrence move down by 26 and the last 26 bytes stay. */
  lemma ShiftedAt(s: seq<byte>, i: nat)
    requires Rewrite(s).resized && i < |s|
    ensures var pos := Search(s).value;
      Rewrite(s).bytes[i] == if i < pos then s[i] else if i < |s| - ParamLength then s[i + ParamLength] else s[i]
  {
    var pos := Search(s).value;
    var L := ParamLength;
    var a, b, c := s[..pos], s[pos + L..], s[|s| - L..];
    assert Rewrite(s).bytes == a + b + c;
    if i < pos {
      assert (a + b + c)[i] == a[i];
    } else if i < |s| - L {
      assert (a + b + c)[i] == b[i - pos];
    } else {
      assert (a + b + c)[i] == c[i - (|s| - L)];
    }
  }

  /**
   * After a shift, the first `|s| - 26` bytes, which is what the shrunk size
   * exposes, are the old store with the first occurrence cut out.
   */
  lemma ShrunkStoreIsDeletion(s: seq<byte>)
    requires Rewrite(s).resized
    ensures |s| >= ParamLength
    ensures var pos := Search(s).value;
      Rewrite(s).bytes[..|s| - ParamLength] == s[..pos] + s[pos + ParamLength..]
  {
    var pos := Search(s).value;
    var L := ParamLength;
    var cut := s[..pos] + s[pos + L..];
    assert |cut| == |s| - L;
    forall i | 0 <= i < |s| - L
      ensures Rewrite(s).bytes[i] == cut[i]
    {
      ShiftedAt(s, i);
      if i >= pos {
        assert cut[i] == s[pos + L..][i - pos];
      }
    }
  }

  /** After zero-filling, the store no longer holds the pattern where it was found. */
  lemma ZeroFillRemovesOccurrence(s: seq<byte>)
    requires Search(s).Some? && HasPadding(s, Search(s).value)
    ensures !OccursAt(Rewrite(s).bytes, ParamToRemove, Search(s).value)
  {
    var pos := Search(s).value;
    ZeroFilledAt(s, pos);
    assert Rewrite(s).bytes[pos] == 0 != ParamToRemove[0];
    assert Rewrite(s).bytes[pos..pos + ParamLength][0] == Rewrite(s).bytes[pos];
  }

  // ---------------------------------------------------------------------
  // ModifyStoreInPlace on memory
  // ---------------------------------------------------------------------

  /** The `std::search` call: the first occurrence of the pattern in `mem[start..start + size]`. */
  method SearchStore(mem: array<byte>, start: nat, size: nat) returns (found: bool, pos: nat)
    requires start + size <= mem.Length
    ensures found <==> Search(mem[start..start + size]).Some?
    ensures found ==> Search(mem[start..start + size]) == Some(pos)
  {
    ghost var s := mem[start..start + size];
    var L := ParamLength;
    found, pos := false, 0;
    while pos + L <= size
      invariant SearchFrom(s, ParamToRemove, pos) == Search(s)
    {
      SliceOfSlice(mem[..], start, start + size, pos, pos + L);
      if mem[start + pos..start + pos + L] == ParamToRemove {
        found := true;
        return;
      }
      pos := pos + 1;
    }
  }

  /** `memset(mem + at, 0, n)`. */
  method ZeroFill(mem: array<byte>, at: nat, n: nat)
    requires at + n <= mem.Length
    modifies mem
    ensures forall j :: 0 <= j < mem.Length ==> mem[j] == if at <= j < at + n then 0 else old(mem[j])
  {
    var k := 0;
    while k < n
      invariant 0 <= k <= n
      invariant forall j :: 0 <= j < mem.Length ==> mem[j] == if at <= j < at + k then 0 else old(mem[j])
    {
      mem[at + k] := 0;
      k := k + 1;
    }
  }

  /** `memmove(mem + at, mem + at + gap, n)` with the destination first, so a forward copy is exact. */
  method ShiftDown(mem: array<byte>, at: nat, gap: nat, n: nat)
    requires at + gap + n <= mem.Length
    modifies mem
    ensures forall j :: 0 <= j < mem.Length ==> mem[j] == if at <= j < at + n then old(mem[j + gap]) else old(mem[j])
  {
    var k := 0;
    while k < n
      invariant 0 <= k <= n
      invariant forall j :: 0 <= j < mem.Length ==> mem[j] == if at <= j < at + k then old(mem[j + gap]) else old(mem[j])
    {
      mem[at + k] := mem[at + gap + k];
      k := k + 1;
    }
  }

  /**
   * `ModifyStoreInPlace(store, store_size)`, the store being the `store_size`
   * bytes of `mem` from `start`; a null `mem` is the null pointer.
   */
  method ModifyStoreInPlace(mem: array?<byte>, start: nat, storeSize: uint32) returns (resized: bool)
    requires mem != null ==> start + storeSize <= mem.Length
    modifies mem
    ensures mem == null ==> !resized
    ensures mem != null ==>
      var r := Rewrite(old(mem[start..start + storeSize]));
      resized == r.resized && mem[..] == old(mem[..start]) + r.bytes + old(mem[start + storeSize..])
  {
    if mem == null || storeSize == 0 {
      return false;
    }
    ghost var before := mem[..];
    ghost var s := mem[start..start + storeSize];
    var L := ParamLength;

    var found, pos := SearchStore(mem, start, storeSize);
    if !found {
      assert before[..start] + s + before[start + storeSize..] == before;
      return false;
    }
    resized := RemoveFound(mem, start, storeSize, pos);
  }

  /** The rest of `ModifyStoreInPlace` once the pattern was found at `pos`: zero-fill or shift down. */
  method RemoveFound(mem: array<byte>, start: nat, storeSize: nat, pos: nat) returns (resized: bool)
    requires start + storeSize <= mem.Length
    requires Search(mem[start..start + storeSize]) == Some(pos)
    modifies mem
    ensures var r := Rewrite(old(mem[start..start + storeSize]));
      resized == r.resized && mem[..] == old(mem[..start]) + r.bytes + old(mem[start + storeSize..])
  {
    ghost var before := mem[..];
    ghost var s := mem[start..start + storeSize];
    var L := ParamLength;
    // the padding test looks at the byte after the one that follows the pattern
    var byteAfterParam := pos + L;
    var hasPadding := byteAfterParam + 1 < storeSize && mem[start + byteAfterParam + 1] == 0;
    assert hasPadding == HasPadding(s, pos);

    if hasPadding {
      ZeroFill(mem, start + pos, L);
      resized := false;
      ZeroFilledStore(before, mem[..], start, storeSize, pos);
    } else {
      ShiftDown(mem, start + pos, L, storeSize - byteAfterParam);
      resized := true;
      ShiftedStore(before, mem[..], start, storeSize, pos);
    }
  }

  /** The memory after the `memset` branch is the store's rewrite spliced into the old memory. */
  lemma ZeroFilledStore(before: seq<byte>, after: seq<byte>, start: nat, size: nat, pos: nat)
    requires start + size <= |before| == |after|
    requires Search(before[start..start + size]) == Some(pos) && HasPadding(before[start..start + size], pos)
    requires forall j :: 0 <= j < |after| ==>
      after[j] == if start + pos <= j < start + pos + ParamLength then 0 else before[j]
    ensures after == before[..start] + Rewrite(before[start..start + size]).bytes + before[start + size..]
  {
    var s := before[start..start + size];
    var bytes := Rewrite(s).bytes;
    forall j | 0 <= j < |after|
      ensures after[j] == if start <= j < start + size then bytes[j - start] else before[j]
    {
      if start <= j < start + size {
        assert s[j - start] == before[j];
        ZeroFilledAt(s, j - start);
      }
    }
    StoreFrame(before, after, start, size, bytes);
  }

  /** The memory after the `memmove` branch is the store's rewrite spliced into the old memory. */
  lemma ShiftedStore(before: seq<byte>, after: seq<byte>, start: nat, size: nat, pos: nat)
    requires start + size <= |before| == |after|
    requires Search(before[start..start + size]) == Some(pos) && !HasPadding(before[start..start + size], pos)
    requires pos + ParamLength <= size
    requires forall j {:trigger after[j]} :: 0 <= j < |after| ==>
      after[j] == if start + pos <= j < start + pos + (size - (pos + ParamLength)) then before[j + ParamLength] else before[j]
    ensures after == before[..start] + Rewrite(before[start..start + size]).bytes + before[start + size..]
  {
    var s := before[start..start + size];
    var bytes := Rewrite(s).bytes;
    forall j | 0 <= j < |after|
      ensures after[j] == if start <= j < start + size then bytes[j - start] else before[j]
    {
      if start <= j < start + size {
        var i := j - start;
        assert s[i] == before[j];
        ShiftedAt(s, i);
        if pos <= i < size - ParamLength {
          assert s[i + ParamLength] == before[j + ParamLength];
        }
      }
    }
    StoreFrame(before, after, start, size, bytes);
  }

  /** Memory that matches `bytes` inside the store and `before` outside it is the spliced sequence. */
  lemma StoreFrame(before: seq<byte>, after: seq<byte>, start: nat, size: nat, bytes: seq<byte>)
    requires start + size <= |before| == |after| && |bytes| == size
    requires forall j :: 0 <= j < |after| ==>
      after[j] == if start <= j < start + size then bytes[j - start] else before[j]
    ensures after == before[..start] + bytes + before[start + size..]
  {
  }

  lemma SliceOfSlice(m: seq<byte>, a: nat, b: nat, c: nat, d: nat)
    requires a <= b <= |m| && c <= d <= b - a
    ensures m[a..b][c..d] == m[a + c..a + d]
  {
    var x, y := m[a..b][c..d], m[a + c..a + d];
    forall i | 0 <= i < |x|
      ensures x[i] == y[i]
    {
    }
  }

  /** The three parts of a concatenation, read back by position. */
  lemma Splice(m: seq<byte>, pre: seq<byte>, mid: seq<byte>, post: seq<byte>)
    requires m == pre + mid + post
    ensures m[..|pre|] == pre && m[|pre|..|pre| + |mid|] == mid && m[|pre| + |mid|..] == post
    ensures forall i :: 0 <= i <= |pre| ==> m[..i] == pre[..i]
    ensures forall i, j :: 0 <= i <= j <= |pre| ==> m[i..j] == pre[i..j]
  {
  }

  // ---------------------------------------------------------------------
  // OatHeader and its accessors
  // ---------------------------------------------------------------------

  /** An `art::OatHeader`: `mem` holds its bytes from the header's first byte on. */
  class OatHeader {
    const mem: array<byte>

    constructor (mem: array<byte>)
      requires mem.Length >= KeyValueStoreOffset
      ensures this.mem == mem
    {
      this.mem := mem;
    }

    ghost predicate Valid()
    {
      mem.Length >= KeyValueStoreOffset
    }

    /** `GetKeyValueStoreSize()`: the 32-bit field at its offset; it reads and changes nothing else. */
    function GetKeyValueStoreSize(): (n: uint32)
      requires Valid()
      reads mem
      ensures n == LoadU32(mem[KeyValueStoreSizeOffset..KeyValueStoreSizeOffset + 4])
    {
      LoadU32(mem[KeyValueStoreSizeOffset..KeyValueStoreOffset])
    }

    /** `GetKeyValueStore()`: where the store starts, right after the size field, whatever the size says. */
    function GetKeyValueStore(): (offset: nat)
      requires Valid()
      ensures offset == KeyValueStoreSizeOffset + 4 && offset <= mem.Length
    {
      KeyValueStoreOffset
    }

    /** The bytes of the store as the size field describes them. */
    function Store(): seq<byte>
      requires Valid() && KeyValueStoreOffset + GetKeyValueStoreSize() <= mem.Length
      reads mem
    {
      mem[KeyValueStoreOffset..KeyValueStoreOffset + GetKeyValueStoreSize()]
    }

    /** `SetKeyValueStoreSize(new_size)`: writes the size field and nothing else. */
    method SetKeyValueStoreSize(newSize: uint32)
      requires Valid()
      modifies mem
      ensures GetKeyValueStoreSize() == newSize
      ensures mem[..KeyValueStoreSizeOffset] == old(mem[..KeyValueStoreSizeOffset])
      ensures mem[KeyValueStoreOffset..] == old(mem[KeyValueStoreOffset..])
    {
      var b := StoreU32(newSize);
      mem[KeyValueStoreSizeOffset] := b[0];
      mem[KeyValueStoreSizeOffset + 1] := b[1];
      mem[KeyValueStoreSizeOffset + 2] := b[2];
      mem[KeyValueStoreSizeOffset + 3] := b[3];
      assert mem[KeyValueStoreSizeOffset..KeyValueStoreOffset] == b;
      LoadStoreU32(newSize);
    }
  }

  // ---------------------------------------------------------------------
  // The hooks and `store_resized`
  // ---------------------------------------------------------------------

  /** The hook library's global state: `store_resized`. */
  class Hooks {
    var storeResized: bool

    constructor ()
      ensures !storeResized
    {
      storeResized := false;
    }

    /** The `GetKeyValueStoreSize` hook: the field, less 26 (as unsigned 32-bit) while the store is resized. */
    method GetKeyValueStoreSize(header: OatHeader) returns (size: uint32)
      requires header.Valid()
      ensures !storeResized ==> size == header.GetKeyValueStoreSize()
      ensures storeResized ==> size == Wrap(header.GetKeyValueStoreSize() - ParamLength)
    {
      size := header.GetKeyValueStoreSize();
      if storeResized {
        size := Wrap(size - ParamLength);
      }
    }

    /**
     * The body both store hooks share: rewrite the store that the unhooked
     * size describes and set `store_resized` to the result.
     */
    method RewriteStore(header: OatHeader)
      requires header.Valid() && KeyValueStoreOffset + header.GetKeyValueStoreSize() <= header.mem.Length
      modifies this, header.mem
      ensures header.GetKeyValueStoreSize() == old(header.GetKeyValueStoreSize())
      ensures var size := old(header.GetKeyValueStoreSize());
        var r := Rewrite(old(header.Store()));
        && storeResized == r.resized
        && header.mem[..] == old(header.mem[..KeyValueStoreOffset]) + r.bytes + old(header.mem[KeyValueStoreOffset + size..])
      ensures header.mem[..KeyValueStoreSizeOffset] == old(header.mem[..KeyValueStoreSizeOffset])
      ensures header.mem[KeyValueStoreOffset..]
           == Rewrite(old(header.Store())).bytes + old(header.mem[KeyValueStoreOffset + header.GetKeyValueStoreSize()..])
    {
      var store := header.GetKeyValueStore();
      var size := header.GetKeyValueStoreSize();
      ghost var m0 := old(header.mem[..]);
      storeResized := ModifyStoreInPlace(header.mem, store, size);
      Splice(header.mem[..], m0[..KeyValueStoreOffset], Rewrite(old(header.Store())).bytes, m0[KeyValueStoreOffset + size..]);
      assert header.mem[KeyValueStoreSizeOffset..KeyValueStoreOffset] == m0[KeyValueStoreSizeOffset..KeyValueStoreOffset];
    }

    /** The `GetKeyValueStore` hook: rewrite the store, remember whether it shrank, return where it starts. */
    method GetKeyValueStore(header: OatHeader) returns (store: nat)
      requires header.Valid() && KeyValueStoreOffset + header.GetKeyValueStoreSize() <= header.mem.Length
      modifies this, header.mem
      ensures store == header.GetKeyValueStore()
      ensures header.GetKeyValueStoreSize() == old(header.GetKeyValueStoreSize())
      ensures var size := old(header.GetKeyValueStoreSize());
        var r := Rewrite(old(header.Store()));
        && storeResized == r.resized
        && header.mem[..] == old(header.mem[..KeyValueStoreOffset]) + r.bytes + old(header.mem[KeyValueStoreOffset + size..])
    {
      RewriteStore(header);
      store := header.GetKeyValueStore();
    }

    /**
     * The `ComputeChecksum` hook: rewrite the store, shrink the size field by
     * 26 when the store shrank, then run the original on the updated header.
     */
    method ComputeChecksum(header: OatHeader, checksum: uint32, original: (seq<byte>, uint32) -> uint32)
      returns (result: uint32)
      requires header.Valid() && KeyValueStoreOffset + header.GetKeyValueStoreSize() <= header.mem.Length
      modifies this, header.mem
      ensures storeResized == Rewrite(old(header.Store())).resized
      ensures header.GetKeyValueStoreSize() ==
        if storeResized then old(header.GetKeyValueStoreSize()) - ParamLength else old(header.GetKeyValueStoreSize())
      ensures header.mem[..KeyValueStoreSizeOffset] == old(header.mem[..KeyValueStoreSizeOffset])
      ensures header.mem[KeyValueStoreOffset..]
           == Rewrite(old(header.Store())).bytes + old(header.mem[KeyValueStoreOffset + header.GetKeyValueStoreSize()..])
      ensures result == original(header.mem[..], checksum)
    {
      ghost var s := header.Store();
      ghost var post := header.mem[KeyValueStoreOffset + header.GetKeyValueStoreSize()..];
      ghost var head := header.mem[..KeyValueStoreSizeOffset];
      var size := header.GetKeyValueStoreSize();
      RewriteStore(header);
      ghost var tail := header.mem[KeyValueStoreOffset..];
      assert tail == Rewrite(s).bytes + post;
      if storeResized {
        ShrunkStoreIsDeletion(s);
        WrapFits(size - ParamLength);
        var newSize := Wrap(size - ParamLength);
        header.SetKeyValueStoreSize(newSize);
        assert header.GetKeyValueStoreSize() == size - ParamLength;
      } else {
        assert header.GetKeyValueStoreSize() == size;
      }
      assert header.mem[KeyValueStoreOffset..] == tail;
      assert header.mem[..KeyValueStoreSizeOffset] == head;
      result := original(header.mem[..], checksum);
    }
  }

  /**
   * Seen through the hooks, a store that shrank reads as the old store with
   * the first occurrence cut out: the hooked size is the old size less 26,
   * and that many leading bytes are the deletion.
   */
  lemma HookedViewIsDeletion(s: seq<byte>, size: uint32)
    requires |s| == size && Rewrite(s).resized
    ensures Wrap(size - ParamLength) == size - ParamLength
    ensures var pos := Search(s).value;
      Rewrite(s).bytes[..Wrap(size - ParamLength)] == s[..pos] + s[pos + ParamLength..]
  {
    ShrunkStoreIsDeletion(s);
  }
}
