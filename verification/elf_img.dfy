/**
 * `ElfImg`: a loaded library, the tables its section scan recorded, the
 * lazily built `.symtab` index, and the symbol lookups over them.
 */
module ElfImage {
  import opened Scopes
  import opened ElfSymbols
  import opened ElfMaps

  class ElfImg {
    /** The library name, replaced by the mapping's full path once the base is found. */
    var elf: string
    /** The load base; None is `nullptr`. */
    var base: Option<nat>
    /** The mapped file and the decompressed `.gnu_debugdata` image. */
    var header: Option<Image>
    var headerDebugdata: Option<Image>

    // the fields `parse` writes
    var bias: int
    var dynsym: Option<seq<Sym>>
    var strtab: Option<seq<char>>
    var symtab: Option<seq<Sym>>
    var symstrOffsetForSymtab: nat
    var debugdataOffset: nat
    var debugdataSize: nat
    var sysv: SysvHash
    var gnu: GnuHash

    /** `symtabs_`: the `.symtab` index, in insertion order. */
    var symtabs: seq<LinearEntry>

    function State(): ElfState
      reads this
    {
      ElfState(bias, dynsym, strtab, symtab, symstrOffsetForSymtab, debugdataOffset, debugdataSize, sysv, gnu)
    }

    /** The image whose bytes hold the `.symtab` names: the debug image if there is one. */
    function NamesBytes(): seq<char>
      reads this
    {
      if headerDebugdata.Some? then headerDebugdata.value.bytes
      else if header.Some? then header.value.bytes
      else []
    }

    /**
     * `ElfImg(base_name)`: find the base in the memory map; when found, take
     * the mapped file (None when it cannot be opened), parse it, and when
     * `stripped` holds and the debug data decompresses, parse that image too.
     */
    constructor (baseName: string, lines: seq<MapsLine>, file: Option<Image>, stripped: bool, debugImage: Option<Image>)
      ensures ModuleBase(lines, baseName).None? ==> base == None && elf == baseName && State() == Initial
      ensures ModuleBase(lines, baseName).Some? ==> base == Some(ModuleBase(lines, baseName).value.startAddr)
      ensures ModuleBase(lines, baseName).Some? ==> elf == ModuleBase(lines, baseName).value.pathname
      ensures ModuleBase(lines, baseName).Some? && file.Some? ==>
        var first := Parsed(Initial, file.value, |file.value.sections|);
        State() == (if stripped && debugImage.Some? then Parsed(first, debugImage.value, |debugImage.value.sections|) else first)
      ensures symtabs == []
    {
      elf := baseName;
      base := None;
      header, headerDebugdata := None, None;
      bias, dynsym, strtab, symtab := BiasSentinel, None, None, None;
      symstrOffsetForSymtab, debugdataOffset, debugdataSize := 0, 0, 0;
      sysv, gnu := SysvHash(0, [], []), GnuHash(0, 0, 0, 0, [], [], []);
      symtabs := [];
      new;
      var found := FindModuleBase(lines);
      if !found {
        base := None;
        return;
      }
      if file.None? {
        return;
      }
      ghost var found' := ModuleBase(lines, baseName).value;
      assert base == Some(found'.startAddr) && elf == found'.pathname;
      header := file;
      Parse(file.value);
      ghost var first := Parsed(Initial, file.value, |file.value.sections|);
      assert State() == first;
      if stripped && debugImage.Some? {
        headerDebugdata := debugImage;
        Parse(debugImage.value);
      }
    }

    /** `parse(hdr)`: the section loop, one `ParseSection` step per header. */
    method Parse(hdr: Image)
      modifies this
      ensures State() == Parsed(old(State()), hdr, |hdr.sections|)
      ensures elf == old(elf) && base == old(base) && header == old(header) && headerDebugdata == old(headerDebugdata)
      ensures symtabs == old(symtabs)
    {
      var i := 0;
      while i < |hdr.sections|
        invariant 0 <= i <= |hdr.sections|
        invariant State() == Parsed(old(State()), hdr, i)
        invariant elf == old(elf) && base == old(base) && header == old(header) && headerDebugdata == old(headerDebugdata)
        invariant symtabs == old(symtabs)
      {
        ParseStep(hdr, hdr.sections[i]);
        i := i + 1;
      }
    }

    /** The body of the section loop of `parse` for section `sec` of `hdr`. */
    method ParseStep(hdr: Image, sec: Section)
      modifies this
      ensures State() == ParseSection(old(State()), hdr, sec)
      ensures elf == old(elf) && base == old(base) && header == old(header) && headerDebugdata == old(headerDebugdata)
      ensures symtabs == old(symtabs)
    {
      match sec.shType {
        case Dynsym =>
          if bias == BiasSentinel {
            dynsym := Some(SymbolsOf(sec));
          }
        case Symtab =>
          if sec.name == ".symtab" {
            symtab := Some(SymbolsOf(sec));
          }
        case Strtab =>
          if bias == BiasSentinel {
            strtab := Some(StringsAt(hdr, sec.shOffset));
          }
          if sec.name == ".strtab" {
            symstrOffsetForSymtab := sec.shOffset;
          }
        case Progbits =>
          if sec.name == ".gnu_debugdata" {
            debugdataOffset, debugdataSize := sec.shOffset, sec.shSize;
          }
          if strtab.Some? && dynsym.Some? && bias == BiasSentinel {
            bias := sec.shAddr as int - sec.shOffset as int;
          }
        case Hash =>
          sysv := if sec.payload.SysvTable? then sec.payload.sysv else SysvHash(0, [], []);
        case GnuHashSection =>
          gnu := if sec.payload.GnuTable? then sec.payload.gnu else GnuHash(0, 0, 0, 0, [], [], []);
        case OtherSection =>
      }
    }

    /** `MayInitLinearMap()`: build the index from `.symtab` once, when it is empty and the table is known. */
    method MayInitLinearMap()
      modifies this`symtabs
      ensures symtabs == InitLinear(State(), old(symtabs), NamesBytes())
    {
      if symtabs == [] && symtab.Some? && symstrOffsetForSymtab != 0 {
        var syms := symtab.value;
        var bytes := NamesBytes();
        var i := 0;
        while i < |syms|
          invariant 0 <= i <= |syms|
          invariant symtabs == LinearEntries(syms[..i], bytes, symstrOffsetForSymtab)
        {
          assert syms[..i + 1][..i] == syms[..i];
          if Indexed(syms[i]) {
            symtabs := symtabs + [EntryFor(syms[i], bytes, symstrOffsetForSymtab)];
          }
          i := i + 1;
        }
        assert syms[..i] == syms;
      }
    }

    /** `LinearLookup(name)`: the value of the first indexed symbol of that name, or 0. */
    method LinearLookup(name: string) returns (value: nat)
      modifies this`symtabs
      ensures symtabs == InitLinear(State(), old(symtabs), NamesBytes())
      ensures value == LinearValue(symtabs, name)
    {
      MayInitLinearMap();
      match Find(symtabs, name) {
        case Some(i) => value := symtabs[i].sym.stValue;
        case None => value := 0;
      }
    }

    /** `LinearRangeLookup(name)`: the values of every indexed symbol of that name, in insertion order. */
    method LinearRangeLookup(name: string) returns (res: seq<nat>)
      modifies this`symtabs
      ensures symtabs == InitLinear(State(), old(symtabs), NamesBytes())
      ensures res == RangeValues(symtabs, name)
    {
      MayInitLinearMap();
      res := [];
      var i := 0;
      while i < |symtabs|
        invariant 0 <= i <= |symtabs|
        invariant res == RangeValues(symtabs[..i], name)
      {
        assert symtabs[..i + 1][..i] == symtabs[..i];
        if symtabs[i].key == name {
          res := res + [symtabs[i].sym.stValue];
        }
        i := i + 1;
      }
      assert symtabs[..i] == symtabs;
    }

    /** `PrefixLookupFirst(prefix)`: the value at the index's lower bound of `prefix`, if that key starts with it. */
    method PrefixLookupFirst(prefix: string) returns (value: nat)
      modifies this`symtabs
      ensures symtabs == InitLinear(State(), old(symtabs), NamesBytes())
      ensures value == PrefixValue(symtabs, prefix)
    {
      MayInitLinearMap();
      var i := LowerBound(symtabs, prefix);
      if i.Some? && IsPrefix(prefix, symtabs[i.value].key) {
        value := symtabs[i.value].sym.stValue;
      } else {
        value := 0;
      }
    }

    /**
     * `getSymbOffset(name, gnu_hash, elf_hash)`: the lookups in order; the
     * `.symtab` index is built only when both hash lookups answer 0.
     */
    method GetSymbOffset(name: string, gnuHash: nat, elfHash: nat) returns (offset: nat)
      modifies this`symtabs
      ensures GnuLookup(State(), name, gnuHash) > 0 || ElfLookup(State(), name, elfHash) > 0 ==> symtabs == old(symtabs)
      ensures GnuLookup(State(), name, gnuHash) == 0 && ElfLookup(State(), name, elfHash) == 0 ==>
        symtabs == InitLinear(State(), old(symtabs), NamesBytes())
      ensures offset == SymbOffset(State(), symtabs, name, gnuHash, elfHash)
    {
      offset := GnuLookup(State(), name, gnuHash);
      if offset > 0 {
        return;
      }
      offset := ElfLookup(State(), name, elfHash);
      if offset > 0 {
        return;
      }
      offset := LinearLookup(name);
    }

    /**
     * `findModuleBase()` over the memory map `lines`: filter by name, then
     * choose the block; on success `base` and `elf` take the block's start
     * and path, otherwise both stay as they were.
     */
    method FindModuleBase(lines: seq<MapsLine>) returns (found: bool)
      modifies this`base, this`elf
      ensures found <==> ModuleBase(lines, old(elf)).Some?
      ensures found ==> base == Some(ModuleBase(lines, old(elf)).value.startAddr) && elf == ModuleBase(lines, old(elf)).value.pathname
      ensures !found ==> base == old(base) && elf == old(elf)
    {
      var filteredList := FilterMaps(lines, elf);
      if filteredList == [] {
        return false;
      }
      var block := FindBlock(filteredList);
      if block.None? {
        return false;
      }
      base := Some(filteredList[block.value].startAddr);
      elf := filteredList[block.value].pathname;
      found := true;
    }
  }

  /** Step 1 of `findModuleBase`: the line loop that keeps the mappings of `elf`. */
  method FilterMaps(lines: seq<MapsLine>, elf: string) returns (filteredList: seq<MapEntry>)
    ensures filteredList == Filtered(lines, elf)
  {
    filteredList := [];
    var i := 0;
    while i < |lines|
      invariant 0 <= i <= |lines|
      invariant filteredList == Filtered(lines[..i], elf)
    {
      assert lines[..i + 1][..i] == lines[..i];
      var line := lines[i];
      if line.itemsParsed == 3 && Contains(line.pathname, elf) {
        filteredList := filteredList + [MapEntry(line.startAddr, line.perms, line.pathname)];
      }
      i := i + 1;
    }
    assert lines[..i] == lines;
  }

  /** Step 2 of `findModuleBase`: the pattern loop, then the fallback loop. */
  method FindBlock(filteredList: seq<MapEntry>) returns (block: Option<nat>)
    requires filteredList != []
    ensures block == SelectBlock(filteredList)
  {
    block := None;
    var i := 0;
    while i < |filteredList| - 1
      invariant 0 <= i <= |filteredList| - 1
      invariant FirstPair(filteredList, 0) == FirstPair(filteredList, i)
    {
      if filteredList[i].perms == "r--p" && filteredList[i + 1].perms == "r-xp" {
        return Some(i);
      }
      i := i + 1;
    }
    var j := 0;
    while j < |filteredList|
      invariant 0 <= j <= |filteredList|
      invariant FirstExec(filteredList, 0) == FirstExec(filteredList, j)
    {
      if filteredList[j].perms == "r-xp" {
        return Some(j);
      }
      j := j + 1;
    }
  }
}
