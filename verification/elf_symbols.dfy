/**
 * What `ElfImg` knows about a loaded ELF image and how it finds a symbol:
 * the section-header scan that records the dynamic symbol table, its string
 * table and the hash tables and fixes `bias`; the SysV hash chain walk
 * (System V ABI, chapter 5 "Hash Table"); the GNU hash lookup with its bloom
 * filter; the `.symtab` index (a multimap from name to symbol); and the order
 * in which `getSymbOffset` tries them.  Memory is given as records: section
 * headers, symbols and the words of the hash tables.
 */
module ElfSymbols {
  import opened Scopes

  /** The value `bias` holds until a PROGBITS section fixes it. */
  const BiasSentinel: int := -4396
  /** `sizeof(ElfW(Addr)) * 8` on a 64-bit build: the bloom filter's word width. */
  const AddrBits: nat := 64
  const SttObject: nat := 1
  const SttFunc: nat := 2

  // ---------------------------------------------------------------------
  // Records of the image
  // ---------------------------------------------------------------------

  /** An `ElfW(Sym)`: name offset into its string table, info byte, value and size. */
  datatype Sym = Sym(stName: nat, stInfo: nat, stValue: nat, stSize: nat)

  /** `ELF_ST_TYPE(info)`: the low four bits. */
  function StType(info: nat): nat
  {
    info % 16
  }

  /** The SysV hash section: `nbucket`, then the buckets and the chain array. */
  datatype SysvHash = SysvHash(nbucket: nat, bucket: seq<nat>, chain: seq<nat>)

  /**
   * The GNU hash section: its four header words, the bloom words, the buckets
   * and the chain array; chain entry `i - symndx` belongs to symbol `i`.
   */
  datatype GnuHash = GnuHash(nbucket: nat, symndx: nat, bloomSize: nat, shift2: nat,
                             bloom: seq<nat>, bucket: seq<nat>, chain: seq<nat>)

  datatype SectionType = Dynsym | Symtab | Strtab | Progbits | Hash | GnuHashSection | OtherSection

  /** What a section's offset points at, decoded. */
  datatype Payload = NoPayload | Symbols(syms: seq<Sym>) | SysvTable(sysv: SysvHash) | GnuTable(gnu: GnuHash)

  /** A section header with its name resolved through the section-name string table. */
  datatype Section = Section(shType: SectionType, name: string, shOffset: nat, shAddr: nat, shSize: nat, payload: Payload)

  /** A mapped image: its bytes (for string tables) and its section headers in order. */
  datatype Image = Image(bytes: seq<char>, sections: seq<Section>)

  /** The C string at `off`: up to the first NUL (a read past the end stops there). */
  function CStr(s: seq<char>, off: nat): (r: string)
    ensures '\0' !in r
    ensures off <= |s| ==> off + |r| <= |s| && r == s[off..off + |r|] && (off + |r| == |s| || s[off + |r|] == '\0')
    ensures off > |s| ==> r == []
    decreases |s| - off
  {
    if off >= |s| || s[off] == '\0' then []
    else
      var rest := CStr(s, off + 1);
      assert s[off..off + 1 + |rest|] == [s[off]] + s[off + 1..off + 1 + |rest|];
      [s[off]] + rest
  }

  // ---------------------------------------------------------------------
  // parse
  // ---------------------------------------------------------------------

  /** The fields `parse` writes (`dynsym_start`, `strtab_start`, `symtab_start`, ... and `bias`). */
  datatype ElfState = ElfState(
    bias: int,
    dynsym: Option<seq<Sym>>,
    strtab: Option<seq<char>>,
    symtab: Option<seq<Sym>>,
    symstrOffsetForSymtab: nat,
    debugdataOffset: nat,
    debugdataSize: nat,
    sysv: SysvHash,
    gnu: GnuHash)

  /** The fields before any parse: null pointers, zero counts and the sentinel bias. */
  const Initial: ElfState := ElfState(BiasSentinel, None, None, None, 0, 0, 0, SysvHash(0, [], []), GnuHash(0, 0, 0, 0, [], [], []))

  function SymbolsOf(sec: Section): seq<Sym>
  {
    if sec.payload.Symbols? then sec.payload.syms else []
  }

  /** `hdr + sh_offset` read as characters. */
  function StringsAt(img: Image, off: nat): seq<char>
  {
    if off <= |img.bytes| then img.bytes[off..] else []
  }

  /**
   * One iteration of the section loop of `parse`.  Only a PROGBITS section met
   * while `bias` is still the sentinel and both tables are known sets `bias`,
   * to `sh_addr - sh_offset`; once `bias` is set the recorded `.dynsym` and
   * string table no longer change.
   */
  function ParseSection(st: ElfState, img: Image, sec: Section): (r: ElfState)
    ensures r.bias != st.bias ==>
      && sec.shType == Progbits && st.bias == BiasSentinel && st.dynsym.Some? && st.strtab.Some?
      && r.bias == sec.shAddr as int - sec.shOffset as int
    ensures st.bias != BiasSentinel ==> r.bias == st.bias && r.dynsym == st.dynsym && r.strtab == st.strtab
  {
    match sec.shType
    case Dynsym =>
      if st.bias == BiasSentinel then st.(dynsym := Some(SymbolsOf(sec))) else st
    case Symtab =>
      if sec.name == ".symtab" then st.(symtab := Some(SymbolsOf(sec))) else st
    case Strtab =>
      var st1 := if st.bias == BiasSentinel then st.(strtab := Some(StringsAt(img, sec.shOffset))) else st;
      if sec.name == ".strtab" then st1.(symstrOffsetForSymtab := sec.shOffset) else st1
    case Progbits =>
      var st1 := if sec.name == ".gnu_debugdata" then st.(debugdataOffset := sec.shOffset, debugdataSize := sec.shSize) else st;
      if st1.strtab.None? || st1.dynsym.None? then st1
      else if st1.bias == BiasSentinel then st1.(bias := sec.shAddr as int - sec.shOffset as int)
      else st1
    case Hash =>
      if sec.payload.SysvTable? then st.(sysv := sec.payload.sysv) else st.(sysv := SysvHash(0, [], []))
    case GnuHashSection =>
      if sec.payload.GnuTable? then st.(gnu := sec.payload.gnu) else st.(gnu := GnuHash(0, 0, 0, 0, [], [], []))
    case OtherSection => st
  }

  /** The state after the first `k` sections of `img`. */
  function Parsed(st: ElfState, img: Image, k: nat): ElfState
    requires k <= |img.sections|
  {
    if k == 0 then st else ParseSection(Parsed(st, img, k - 1), img, img.sections[k - 1])
  }

  /**
   * Once `bias` has left the sentinel, later sections change neither `bias`
   * nor the recorded dynamic symbol table and string table.
   */
  lemma {:induction false} BiasSetOnce(st: ElfState, img: Image, m: nat, k: nat)
    requires m <= k <= |img.sections|
    requires Parsed(st, img, m).bias != BiasSentinel
    ensures Parsed(st, img, k).bias == Parsed(st, img, m).bias
    ensures Parsed(st, img, k).dynsym == Parsed(st, img, m).dynsym
    ensures Parsed(st, img, k).strtab == Parsed(st, img, m).strtab
  {
    if k > m {
      BiasSetOnce(st, img, m, k - 1);
    }
  }

  /** No PROGBITS section of `img` has `sh_addr - sh_offset` equal to the sentinel. */
  predicate NoSentinelBias(img: Image)
  {
    forall j :: 0 <= j < |img.sections| && img.sections[j].shType == Progbits ==>
      img.sections[j].shAddr as int - img.sections[j].shOffset as int != BiasSentinel
  }

  /** A DYNSYM (or STRTAB) section among the first `j`, or one recorded before. */
  predicate DynsymBefore(st: ElfState, img: Image, j: nat)
    requires j <= |img.sections|
  {
    st.dynsym.Some? || exists i :: 0 <= i < j && img.sections[i].shType == Dynsym
  }

  predicate StrtabBefore(st: ElfState, img: Image, j: nat)
    requires j <= |img.sections|
  {
    st.strtab.Some? || exists i :: 0 <= i < j && img.sections[i].shType == Strtab
  }

  lemma BeforeStep(st: ElfState, img: Image, k: nat)
    requires 0 < k <= |img.sections|
    ensures DynsymBefore(st, img, k) <==> DynsymBefore(st, img, k - 1) || img.sections[k - 1].shType == Dynsym
    ensures StrtabBefore(st, img, k) <==> StrtabBefore(st, img, k - 1) || img.sections[k - 1].shType == Strtab
  {
    if DynsymBefore(st, img, k) && st.dynsym.None? && img.sections[k - 1].shType != Dynsym {
      var i :| 0 <= i < k && img.sections[i].shType == Dynsym;
      assert i < k - 1;
    }
    if StrtabBefore(st, img, k) && st.strtab.None? && img.sections[k - 1].shType != Strtab {
      var i :| 0 <= i < k && img.sections[i].shType == Strtab;
      assert i < k - 1;
    }
  }

  /** Section `j` is a PROGBITS section that comes after both tables are known. */
  predicate FixesBias(st: ElfState, img: Image, j: nat)
    requires j < |img.sections|
  {
    img.sections[j].shType == Progbits && DynsymBefore(st, img, j) && StrtabBefore(st, img, j)
  }

  /** Before the first section that fixes it, `bias` is the sentinel and every DYNSYM and STRTAB section is recorded. */
  lemma {:induction false} BeforeFixing(st: ElfState, img: Image, k: nat)
    requires k <= |img.sections| && st.bias == BiasSentinel
    requires forall j :: 0 <= j < k ==> !FixesBias(st, img, j)
    ensures Parsed(st, img, k).bias == BiasSentinel
    ensures Parsed(st, img, k).dynsym.Some? <==> DynsymBefore(st, img, k)
    ensures Parsed(st, img, k).strtab.Some? <==> StrtabBefore(st, img, k)
  {
    if k > 0 {
      BeforeFixing(st, img, k - 1);
      BeforeStep(st, img, k);
      assert !FixesBias(st, img, k - 1);
    }
  }

  /**
   * Starting from the sentinel, `bias` becomes `sh_addr - sh_offset` of the
   * first PROGBITS section `j` that follows both a DYNSYM and a STRTAB
   * section, and keeps that value through every later section
   * (`BeforeFixing` covers the sections before `j`).
   */
  lemma BiasFromFirstProgbits(st: ElfState, img: Image, j: nat, k: nat)
    requires j < k <= |img.sections|
    requires st.bias == BiasSentinel && NoSentinelBias(img)
    requires FixesBias(st, img, j) && forall i :: 0 <= i < j ==> !FixesBias(st, img, i)
    ensures Parsed(st, img, k).bias == img.sections[j].shAddr as int - img.sections[j].shOffset as int
  {
    BeforeFixing(st, img, j);
    assert Parsed(st, img, j + 1).bias == img.sections[j].shAddr as int - img.sections[j].shOffset as int;
    BiasSetOnce(st, img, j + 1, k);
  }

  // ---------------------------------------------------------------------
  // Lookups in the dynamic symbol table
  // ---------------------------------------------------------------------

  /** Symbol `n` of `.dynsym` exists and its name, read from the recorded string table, is `name`. */
  predicate NameIs(st: ElfState, n: nat, name: string)
  {
    st.dynsym.Some? && n < |st.dynsym.value| && st.strtab.Some? && CStr(st.strtab.value, st.dynsym.value[n].stName) == name
  }

  /** The SysV chain from index `n`: `n`, `chain[n]`, ... up to index 0, cut after `fuel` entries. */
  function SysvChain(t: SysvHash, n: nat, fuel: nat): seq<nat>
    decreases fuel
  {
    if n == 0 || fuel == 0 then []
    else if n < |t.chain| then [n] + SysvChain(t, t.chain[n], fuel - 1)
    else [n]
  }

  /** The position of the first listed symbol whose name matches. */
  function FirstMatchIndex(st: ElfState, name: string, indices: seq<nat>): (r: Option<nat>)
    ensures r.Some? ==> r.value < |indices| && NameIs(st, indices[r.value], name)
    ensures r.Some? ==> forall q :: 0 <= q < r.value ==> !NameIs(st, indices[q], name)
    ensures r.None? ==> forall k :: 0 <= k < |indices| ==> !NameIs(st, indices[k], name)
  {
    if indices == [] then None
    else if NameIs(st, indices[0], name) then Some(0)
    else
      match FirstMatchIndex(st, name, indices[1..])
      case None => None
      case Some(k) => Some(k + 1)
  }

  /** Reference for the chain walks: the value of the first listed symbol whose name matches, or 0. */
  function FirstMatch(st: ElfState, name: string, indices: seq<nat>): (r: nat)
    ensures r != 0 ==> exists n: nat :: NameIs(st, n, name) && r == st.dynsym.value[n].stValue
  {
    match FirstMatchIndex(st, name, indices)
    case None => 0
    case Some(k) => st.dynsym.value[indices[k]].stValue
  }

  /** The walk of `ElfLookup` from index `n`. */
  function SysvWalk(st: ElfState, name: string, n: nat, fuel: nat): nat
    decreases fuel
  {
    if n == 0 || fuel == 0 then 0
    else if NameIs(st, n, name) then st.dynsym.value[n].stValue
    else if n < |st.sysv.chain| then SysvWalk(st, name, st.sysv.chain[n], fuel - 1)
    else 0
  }

  /**
   * `ElfLookup(name, hash)`: 0 without buckets; otherwise the first symbol on
   * the chain of bucket `hash % nbucket` whose name matches.  A cycle in the
   * chain is cut after as many steps as the chain array has entries.  A
   * non-zero answer is the value of a `.dynsym` symbol with that name.
   */
  function ElfLookup(st: ElfState, name: string, hash: nat): (r: nat)
    ensures r != 0 ==> exists n: nat :: NameIs(st, n, name) && r == st.dynsym.value[n].stValue
  {
    var t := st.sysv;
    if t.nbucket == 0 then 0
    else if hash % t.nbucket >= |t.bucket| then 0
    else
      var n := t.bucket[hash % t.nbucket];
      SysvWalkIsFirstMatch(st, name, n, |t.chain| + 1);
      SysvWalk(st, name, n, |t.chain| + 1)
  }

  lemma {:induction false} SysvWalkIsFirstMatch(st: ElfState, name: string, n: nat, fuel: nat)
    ensures SysvWalk(st, name, n, fuel) == FirstMatch(st, name, SysvChain(st.sysv, n, fuel))
    decreases fuel
  {
    if n != 0 && fuel != 0 && n < |st.sysv.chain| && !NameIs(st, n, name) {
      SysvWalkIsFirstMatch(st, name, st.sysv.chain[n], fuel - 1);
      var c := SysvChain(st.sysv, n, fuel);
      assert c[1..] == SysvChain(st.sysv, st.sysv.chain[n], fuel - 1);
    }
  }

  /**
   * `ElfLookup` answers with the value of the first symbol on the bucket's
   * chain whose name matches, and 0 when no symbol on the chain matches.
   */
  lemma ElfLookupFirstOnChain(st: ElfState, name: string, hash: nat)
    requires st.sysv.nbucket != 0 && hash % st.sysv.nbucket < |st.sysv.bucket|
    ensures var c := SysvChain(st.sysv, st.sysv.bucket[hash % st.sysv.nbucket], |st.sysv.chain| + 1);
      ElfLookup(st, name, hash) == FirstMatch(st, name, c)
  {
    SysvWalkIsFirstMatch(st, name, st.sysv.bucket[hash % st.sysv.nbucket], |st.sysv.chain| + 1);
  }

  function Pow2(k: nat): (p: nat)
    ensures p >= 1
  {
    if k == 0 then 1 else 2 * Pow2(k - 1)
  }

  /** Bit `k` of `word`. */
  predicate Bit(word: nat, k: nat)
  {
    (word / Pow2(k)) % 2 == 1
  }

  /** `(mask & bloom_word) == mask`: both bits the hash selects are set in its bloom word. */
  predicate BloomPasses(g: GnuHash, hash: nat)
    requires g.bloomSize != 0
  {
    var w := (hash / AddrBits) % g.bloomSize;
    w < |g.bloom| && Bit(g.bloom[w], hash % AddrBits) && Bit(g.bloom[w], (hash / Pow2(g.shift2)) % AddrBits)
  }

  /** Two hashes agree except for bit 0: `((chain ^ hash) >> 1) == 0`. */
  predicate SameHash(c: nat, hash: nat)
  {
    c / 2 == hash / 2
  }

  /** Symbol `j` is accepted: its chain hash and its name match. */
  predicate GnuAccepts(st: ElfState, name: string, hash: nat, j: nat)
  {
    st.gnu.symndx <= j < st.gnu.symndx + |st.gnu.chain| && SameHash(st.gnu.chain[j - st.gnu.symndx], hash) && NameIs(st, j, name)
  }

  /** Symbols `i .. j-1` all continue the chain: their chain value has bit 0 clear. */
  predicate ChainContinues(g: GnuHash, i: nat, j: nat)
  {
    g.symndx <= i <= j <= g.symndx + |g.chain| && forall c :: i - g.symndx <= c < j - g.symndx ==> g.chain[c] % 2 == 0
  }

  lemma ContinuesStep(g: GnuHash, i: nat, j: nat)
    requires i < j && ChainContinues(g, i + 1, j)
    requires g.symndx <= i < g.symndx + |g.chain| && g.chain[i - g.symndx] % 2 == 0
    ensures ChainContinues(g, i, j)
  {
  }

  /** The do-while loop of `GnuLookup` from symbol `i`; the walk stops after an entry with bit 0 set. */
  function GnuWalk(st: ElfState, name: string, hash: nat, i: nat): nat
    requires st.gnu.symndx <= i
    decreases st.gnu.symndx + |st.gnu.chain| - i
  {
    var g := st.gnu;
    if i - g.symndx >= |g.chain| then 0
    else if SameHash(g.chain[i - g.symndx], hash) && NameIs(st, i, name) then st.dynsym.value[i].stValue
    else if g.chain[i - g.symndx] % 2 == 1 then 0
    else GnuWalk(st, name, hash, i + 1)
  }

  /** A non-zero answer of the walk is the value of an accepted symbol reached without passing a chain end. */
  lemma {:induction false} GnuWalkSound(st: ElfState, name: string, hash: nat, i: nat)
    requires st.gnu.symndx <= i
    ensures GnuWalk(st, name, hash, i) != 0 ==>
      exists j :: i <= j && ChainContinues(st.gnu, i, j) && GnuAccepts(st, name, hash, j) && GnuWalk(st, name, hash, i) == st.dynsym.value[j].stValue
    decreases st.gnu.symndx + |st.gnu.chain| - i
  {
    var g := st.gnu;
    if i - g.symndx < |g.chain| && !(SameHash(g.chain[i - g.symndx], hash) && NameIs(st, i, name)) && g.chain[i - g.symndx] % 2 == 0 {
      GnuWalkSound(st, name, hash, i + 1);
      if GnuWalk(st, name, hash, i) != 0 {
        var j :| i + 1 <= j && ChainContinues(g, i + 1, j) && GnuAccepts(st, name, hash, j) && GnuWalk(st, name, hash, i + 1) == st.dynsym.value[j].stValue;
        ContinuesStep(g, i, j);
      }
    } else if GnuWalk(st, name, hash, i) != 0 {
      assert ChainContinues(g, i, i);
    }
  }

  /** When an accepted symbol lies on the chain, the walk returns the value of the first one. */
  lemma {:induction false} GnuWalkFinds(st: ElfState, name: string, hash: nat, i: nat, j: nat)
    requires st.gnu.symndx <= i <= j
    requires ChainContinues(st.gnu, i, j) && GnuAccepts(st, name, hash, j)
    requires forall k :: i <= k < j ==> !GnuAccepts(st, name, hash, k)
    ensures GnuWalk(st, name, hash, i) == st.dynsym.value[j].stValue
    decreases j - i
  {
    if i < j {
      assert !GnuAccepts(st, name, hash, i);
      GnuWalkFinds(st, name, hash, i + 1, j);
    }
  }

  /**
   * `GnuLookup(name, hash)`: 0 without buckets or bloom words, or when the
   * bloom filter rejects the hash, or when the bucket's first symbol is below
   * `symndx`; otherwise the first symbol on the bucket's chain whose chain
   * hash and name both match.
   */
  function GnuLookup(st: ElfState, name: string, hash: nat): (r: nat)
    ensures r != 0 ==> st.gnu.nbucket != 0 && st.gnu.bloomSize != 0 && BloomPasses(st.gnu, hash)
    ensures r != 0 ==> exists j: nat :: GnuAccepts(st, name, hash, j) && r == st.dynsym.value[j].stValue
  {
    var g := st.gnu;
    if g.nbucket == 0 || g.bloomSize == 0 then 0
    else if !BloomPasses(g, hash) then 0
    else if hash % g.nbucket >= |g.bucket| then 0
    else
      var symIndex := g.bucket[hash % g.nbucket];
      if symIndex < g.symndx then 0
      else
        GnuWalkSound(st, name, hash, symIndex);
        GnuWalk(st, name, hash, symIndex)
  }

  /**
   * Completeness of the GNU lookup: if the bloom filter passes and an
   * accepted symbol is reached from the bucket before a chain end, the
   * lookup returns the first such symbol's value.
   */
  lemma GnuLookupFinds(st: ElfState, name: string, hash: nat, j: nat)
    requires st.gnu.nbucket != 0 && st.gnu.bloomSize != 0 && BloomPasses(st.gnu, hash)
    requires hash % st.gnu.nbucket < |st.gnu.bucket|
    requires var i := st.gnu.bucket[hash % st.gnu.nbucket];
      && st.gnu.symndx <= i <= j && ChainContinues(st.gnu, i, j) && GnuAccepts(st, name, hash, j)
      && forall k :: i <= k < j ==> !GnuAccepts(st, name, hash, k)
    ensures GnuLookup(st, name, hash) == st.dynsym.value[j].stValue
  {
    GnuWalkFinds(st, name, hash, st.gnu.bucket[hash % st.gnu.nbucket], j);
  }

  // ---------------------------------------------------------------------
  // The .symtab index
  // ---------------------------------------------------------------------

  /** An entry of `symtabs_`: the symbol's name and the symbol. */
  datatype LinearEntry = LinearEntry(key: string, sym: Sym)

  /** The symbols `MayInitLinearMap` indexes: functions and objects of non-zero size. */
  predicate Indexed(sym: Sym)
  {
    (StType(sym.stInfo) == SttFunc || StType(sym.stInfo) == SttObject) && sym.stSize != 0
  }

  /** The index built from `syms`, names read at `strOffset + st_name` of `bytes`, in table order. */
  function LinearEntries(syms: seq<Sym>, bytes: seq<char>, strOffset: nat): (es: seq<LinearEntry>)
    ensures |es| <= |syms|
  {
    if syms == [] then []
    else
      var last := syms[|syms| - 1];
      var es := LinearEntries(syms[..|syms| - 1], bytes, strOffset);
      if Indexed(last) then es + [EntryFor(last, bytes, strOffset)] else es
  }

  /** The index entry of `sym`: its name, read at `strOffset + st_name` of `bytes`. */
  function EntryFor(sym: Sym, bytes: seq<char>, strOffset: nat): LinearEntry
  {
    LinearEntry(CStr(bytes, strOffset + sym.stName), sym)
  }

  /** An entry is in the index exactly when an indexed symbol of the table gives it. */
  lemma {:induction false} LinearEntriesMembers(syms: seq<Sym>, bytes: seq<char>, strOffset: nat)
    ensures forall e :: e in LinearEntries(syms, bytes, strOffset) <==>
      exists i :: 0 <= i < |syms| && Indexed(syms[i]) && e == EntryFor(syms[i], bytes, strOffset)
  {
    if syms != [] {
      var init := syms[..|syms| - 1];
      var last := syms[|syms| - 1];
      var es := LinearEntries(init, bytes, strOffset);
      LinearEntriesMembers(init, bytes, strOffset);
      assert LinearEntries(syms, bytes, strOffset) == if Indexed(last) then es + [EntryFor(last, bytes, strOffset)] else es;
      forall e | e in LinearEntries(syms, bytes, strOffset)
        ensures exists i :: 0 <= i < |syms| && Indexed(syms[i]) && e == EntryFor(syms[i], bytes, strOffset)
      {
        if e in es {
          var i :| 0 <= i < |init| && Indexed(init[i]) && e == EntryFor(init[i], bytes, strOffset);
          assert syms[i] == init[i];
        } else {
          assert syms[|syms| - 1] == last;
        }
      }
      forall e | exists i :: 0 <= i < |syms| && Indexed(syms[i]) && e == EntryFor(syms[i], bytes, strOffset)
        ensures e in LinearEntries(syms, bytes, strOffset)
      {
        var i :| 0 <= i < |syms| && Indexed(syms[i]) && e == EntryFor(syms[i], bytes, strOffset);
        var all := LinearEntries(syms, bytes, strOffset);
        if i < |init| {
          assert init[i] == syms[i];
          assert e in es;
          assert Indexed(last) ==> all == es + [EntryFor(last, bytes, strOffset)];
        } else {
          assert i == |syms| - 1;
          assert all == es + [EntryFor(last, bytes, strOffset)];
          assert all[|es|] == e;
        }
      }
    }
  }

  /**
   * `MayInitLinearMap`: an empty index is built from `.symtab` when both the
   * table and its string table offset are known; otherwise it stays as it is.
   */
  function InitLinear(st: ElfState, index: seq<LinearEntry>, bytes: seq<char>): seq<LinearEntry>
  {
    if index != [] then index
    else if st.symtab.Some? && st.symstrOffsetForSymtab != 0 then LinearEntries(st.symtab.value, bytes, st.symstrOffsetForSymtab)
    else index
  }

  /** `symtabs_.find(name)`: the first inserted entry with that key. */
  function Find(es: seq<LinearEntry>, name: string): (r: Option<nat>)
    ensures r.Some? ==> r.value < |es| && es[r.value].key == name && forall j :: 0 <= j < r.value ==> es[j].key != name
    ensures r.None? ==> forall j :: 0 <= j < |es| ==> es[j].key != name
  {
    if es == [] then None
    else if es[0].key == name then Some(0)
    else
      match Find(es[1..], name)
      case None => None
      case Some(k) => Some(k + 1)
  }

  /** `LinearLookup` once the index is built: 0 when no entry has the key. */
  function LinearValue(es: seq<LinearEntry>, name: string): (r: nat)
    ensures r != 0 ==> exists i :: 0 <= i < |es| && es[i].key == name && r == es[i].sym.stValue
    ensures (forall i :: 0 <= i < |es| ==> es[i].key != name) ==> r == 0
  {
    match Find(es, name)
    case None => 0
    case Some(i) => es[i].sym.stValue
  }

  /** `LinearRangeLookup` once the index is built: the values of the entries with that key, in insertion order. */
  function RangeValues(es: seq<LinearEntry>, name: string): (vs: seq<nat>)
    ensures |vs| <= |es|
  {
    if es == [] then []
    else
      var init := RangeValues(es[..|es| - 1], name);
      if es[|es| - 1].key == name then init + [es[|es| - 1].sym.stValue] else init
  }

  /** The values `LinearRangeLookup` returns are exactly those of the matching entries, and the first is `LinearLookup`'s. */
  lemma {:induction false} RangeValuesMatch(es: seq<LinearEntry>, name: string)
    ensures forall v :: v in RangeValues(es, name) <==> exists i :: 0 <= i < |es| && es[i].key == name && es[i].sym.stValue == v
    ensures Find(es, name).Some? ==> RangeValues(es, name) != [] && RangeValues(es, name)[0] == LinearValue(es, name)
    ensures Find(es, name).None? ==> RangeValues(es, name) == []
  {
    if es != [] {
      var init := es[..|es| - 1];
      RangeValuesMatch(init, name);
      assert forall i :: 0 <= i < |init| ==> init[i] == es[i];
      if Find(init, name).Some? {
        assert Find(es, name) == Find(init, name);
      } else if es[|es| - 1].key == name {
        assert Find(es, name) == Some(|es| - 1);
      }
    }
  }

  // ---------------------------------------------------------------------
  // Key order and the prefix lookup
  // ---------------------------------------------------------------------

  /** `std::string_view` ordering: `a <= b`, character by character, a proper prefix first. */
  predicate LexLe(a: string, b: string)
    decreases |a|
  {
    a == [] || (b != [] && (a[0] < b[0] || (a[0] == b[0] && LexLe(a[1..], b[1..]))))
  }

  lemma {:induction false} LexLeReflexive(a: string)
    ensures LexLe(a, a)
    decreases |a|
  {
    if a != [] {
      LexLeReflexive(a[1..]);
    }
  }

  lemma {:induction false} LexLeTotal(a: string, b: string)
    ensures LexLe(a, b) || LexLe(b, a)
    decreases |a|
  {
    if a != [] && b != [] && a[0] == b[0] {
      LexLeTotal(a[1..], b[1..]);
    }
  }

  lemma {:induction false} LexLeAntisymmetric(a: string, b: string)
    requires LexLe(a, b) && LexLe(b, a)
    ensures a == b
    decreases |a|
  {
    if a != [] {
      LexLeAntisymmetric(a[1..], b[1..]);
      assert a == [a[0]] + a[1..] && b == [b[0]] + b[1..];
    }
  }

  lemma {:induction false} LexLeTransitive(a: string, b: string, c: string)
    requires LexLe(a, b) && LexLe(b, c)
    ensures LexLe(a, c)
    decreases |a|
  {
    if a != [] && a[0] == b[0] && b[0] == c[0] {
      LexLeTransitive(a[1..], b[1..], c[1..]);
    }
  }

  predicate IsPrefix(p: string, s: string)
  {
    |p| <= |s| && s[..|p|] == p
  }

  lemma {:induction false} PrefixLe(p: string, s: string)
    requires IsPrefix(p, s)
    ensures LexLe(p, s)
    decreases |p|
  {
    if p != [] {
      assert s[1..][..|p| - 1] == p[1..];
      PrefixLe(p[1..], s[1..]);
    }
  }

  /** A key between a prefix and a key that has that prefix has the prefix too. */
  lemma {:induction false} PrefixBetween(p: string, b: string, c: string)
    requires IsPrefix(p, c) && LexLe(p, b) && LexLe(b, c)
    ensures IsPrefix(p, b)
    decreases |p|
  {
    if p != [] {
      assert c[1..][..|p| - 1] == p[1..];
      assert c[0] == p[0];
      PrefixBetween(p[1..], b[1..], c[1..]);
      assert b == [b[0]] + b[1..];
    }
  }

  /**
   * `symtabs_.lower_bound(prefix)`: among the entries whose key is not below
   * `prefix`, one with the smallest key, the first inserted among equal keys.
   */
  function LowerBound(es: seq<LinearEntry>, prefix: string): (r: Option<nat>)
    ensures r.Some? ==> r.value < |es| && LexLe(prefix, es[r.value].key)
    ensures r.Some? ==> forall j :: 0 <= j < |es| && LexLe(prefix, es[j].key) ==> LexLe(es[r.value].key, es[j].key)
    ensures r.Some? ==> forall j :: 0 <= j < r.value ==> es[j].key != es[r.value].key || !LexLe(prefix, es[j].key)
    ensures r.None? ==> forall j :: 0 <= j < |es| ==> !LexLe(prefix, es[j].key)
  {
    if es == [] then None
    else
      var init := es[..|es| - 1];
      var n := |es| - 1;
      var last := es[n];
      var r := LowerBound(init, prefix);
      assert forall i :: 0 <= i < |init| ==> init[i] == es[i];
      if !LexLe(prefix, last.key) then r
      else if r.None? then
        LexLeReflexive(last.key);
        Some(n)
      else if LexLe(es[r.value].key, last.key) then
        r
      else
        LexLeTotal(es[r.value].key, last.key);
        forall j | 0 <= j < |es| && LexLe(prefix, es[j].key)
          ensures LexLe(last.key, es[j].key)
        {
          if j < n {
            assert init[j] == es[j];
            LexLeTransitive(last.key, es[r.value].key, es[j].key);
          } else {
            LexLeReflexive(last.key);
          }
        }
        forall j | 0 <= j < n && LexLe(prefix, es[j].key)
          ensures es[j].key != last.key
        {
          assert init[j] == es[j];
        }
        Some(n)
  }

  /** `PrefixLookupFirst(prefix)` once the index is built. */
  function PrefixValue(es: seq<LinearEntry>, prefix: string): nat
  {
    match LowerBound(es, prefix)
    case None => 0
    case Some(i) => if IsPrefix(prefix, es[i].key) then es[i].sym.stValue else 0
  }

  /**
   * The prefix lookup hits exactly when some indexed name starts with the
   * prefix, and then the entry it answers with has the smallest such name.
   */
  lemma PrefixLookupHits(es: seq<LinearEntry>, prefix: string)
    ensures (LowerBound(es, prefix).Some? && IsPrefix(prefix, es[LowerBound(es, prefix).value].key))
       <==> exists j :: 0 <= j < |es| && IsPrefix(prefix, es[j].key)
    ensures LowerBound(es, prefix).Some? && IsPrefix(prefix, es[LowerBound(es, prefix).value].key) ==>
      forall j :: 0 <= j < |es| && IsPrefix(prefix, es[j].key) ==> LexLe(es[LowerBound(es, prefix).value].key, es[j].key)
  {
    if exists j :: 0 <= j < |es| && IsPrefix(prefix, es[j].key) {
      var j :| 0 <= j < |es| && IsPrefix(prefix, es[j].key);
      PrefixLe(prefix, es[j].key);
      var i := LowerBound(es, prefix).value;
      PrefixBetween(prefix, es[i].key, es[j].key);
    }
    forall j | 0 <= j < |es| && IsPrefix(prefix, es[j].key)
      ensures LexLe(prefix, es[j].key)
    {
      PrefixLe(prefix, es[j].key);
    }
  }

  // ---------------------------------------------------------------------
  // getSymbOffset
  // ---------------------------------------------------------------------

  /**
   * `getSymbOffset`: the GNU lookup if non-zero, else the SysV lookup if
   * non-zero, else the `.symtab` lookup.  A non-zero answer is the value of
   * a symbol with that name: one the GNU table accepts for the hash, one of
   * `.dynsym`, or an entry of the `.symtab` index.
   */
  function SymbOffset(st: ElfState, index: seq<LinearEntry>, name: string, gnuHash: nat, elfHash: nat): (r: nat)
    ensures r != 0 ==>
      || (exists j: nat :: GnuAccepts(st, name, gnuHash, j) && r == st.dynsym.value[j].stValue)
      || (exists n: nat :: NameIs(st, n, name) && r == st.dynsym.value[n].stValue)
      || (exists i :: 0 <= i < |index| && index[i].key == name && r == index[i].sym.stValue)
  {
    var g := GnuLookup(st, name, gnuHash);
    if g > 0 then g
    else
      var e := ElfLookup(st, name, elfHash);
      if e > 0 then e else LinearValue(index, name)
  }

  /** Each lookup is consulted only when the ones before it answered 0, and a non-zero answer is one of theirs. */
  lemma SymbOffsetOrder(st: ElfState, index: seq<LinearEntry>, name: string, gnuHash: nat, elfHash: nat)
    ensures var r := SymbOffset(st, index, name, gnuHash, elfHash);
      && (GnuLookup(st, name, gnuHash) != 0 ==> r == GnuLookup(st, name, gnuHash))
      && (GnuLookup(st, name, gnuHash) == 0 && ElfLookup(st, name, elfHash) != 0 ==> r == ElfLookup(st, name, elfHash))
      && (GnuLookup(st, name, gnuHash) == 0 && ElfLookup(st, name, elfHash) == 0 ==> r == LinearValue(index, name))
      && (r == 0 <==> GnuLookup(st, name, gnuHash) == 0 && ElfLookup(st, name, elfHash) == 0 && LinearValue(index, name) == 0)
  {
  }

  /** A name that neither `.dynsym` nor the `.symtab` index holds is not found: `getSymbOffset` answers 0. */
  lemma SymbOffsetAbsent(st: ElfState, index: seq<LinearEntry>, name: string, gnuHash: nat, elfHash: nat)
    requires forall n: nat :: !NameIs(st, n, name)
    requires forall i :: 0 <= i < |index| ==> index[i].key != name
    ensures SymbOffset(st, index, name, gnuHash, elfHash) == 0
  {
  }
}
