/**
 * How `ElfImg::findModuleBase` picks the load base of a library from the
 * process's memory map: keep the lines whose path contains the library name,
 * then take the first `r--p` mapping directly followed by an `r-xp` one, or
 * failing that the first `r-xp` mapping.
 */
module ElfMaps {
  import opened Scopes

  /** One line of the memory map as `sscanf` split it: how many items it parsed, start, permissions, path. */
  datatype MapsLine = MapsLine(itemsParsed: int, startAddr: nat, perms: string, pathname: string)

  /** A kept mapping: start address, permissions (at most four characters) and path. */
  datatype MapEntry = MapEntry(startAddr: nat, perms: string, pathname: string)

  /** `strstr(a, b) != nullptr`: `b` occurs in `a` (the empty string occurs everywhere). */
  predicate Contains(a: string, b: string)
  {
    exists k: nat :: k <= |a| && OccursAt(a, b, k)
  }

  predicate OccursAt(a: string, b: string, k: nat)
  {
    k + |b| <= |a| && a[k..k + |b|] == b
  }

  /** A line is kept when all three items were parsed and its path contains the name. */
  predicate Kept(line: MapsLine, elf: string)
  {
    line.itemsParsed == 3 && Contains(line.pathname, elf)
  }

  function EntryOf(line: MapsLine): MapEntry
  {
    MapEntry(line.startAddr, line.perms, line.pathname)
  }

  /** `filtered_list`: the kept lines, in map order. */
  function Filtered(lines: seq<MapsLine>, elf: string): (es: seq<MapEntry>)
    ensures |es| <= |lines|
  {
    if lines == [] then []
    else
      var init := Filtered(lines[..|lines| - 1], elf);
      var last := lines[|lines| - 1];
      if Kept(last, elf) then init + [EntryOf(last)] else init
  }

  /** An entry is in the filtered list exactly when some kept line gives it. */
  lemma {:induction false} FilteredMembers(lines: seq<MapsLine>, elf: string)
    ensures forall e :: e in Filtered(lines, elf) <==> exists i :: 0 <= i < |lines| && Kept(lines[i], elf) && e == EntryOf(lines[i])
  {
    if lines != [] {
      var init := lines[..|lines| - 1];
      FilteredMembers(init, elf);
      assert forall i :: 0 <= i < |init| ==> init[i] == lines[i];
      forall e | exists i :: 0 <= i < |lines| && Kept(lines[i], elf) && e == EntryOf(lines[i])
        ensures e in Filtered(lines, elf)
      {
        var i :| 0 <= i < |lines| && Kept(lines[i], elf) && e == EntryOf(lines[i]);
        if i < |init| {
          assert Kept(init[i], elf) && e == EntryOf(init[i]);
        }
      }
    }
  }

  /** Entry `i` is `r--p` and entry `i + 1` is `r-xp`. */
  predicate PairAt(es: seq<MapEntry>, i: nat)
  {
    i + 1 < |es| && es[i].perms == "r--p" && es[i + 1].perms == "r-xp"
  }

  predicate ExecAt(es: seq<MapEntry>, i: nat)
  {
    i < |es| && es[i].perms == "r-xp"
  }

  /** The index of the first `r--p` / `r-xp` pair at or after `from`. */
  function FirstPair(es: seq<MapEntry>, from: nat): (r: Option<nat>)
    ensures r.Some? ==> from <= r.value && PairAt(es, r.value) && forall j :: from <= j < r.value ==> !PairAt(es, j)
    ensures r.None? ==> forall j :: from <= j ==> !PairAt(es, j)
    decreases |es| - from
  {
    if from + 1 >= |es| then None
    else if PairAt(es, from) then Some(from)
    else FirstPair(es, from + 1)
  }

  /** The index of the first `r-xp` entry at or after `from`. */
  function FirstExec(es: seq<MapEntry>, from: nat): (r: Option<nat>)
    ensures r.Some? ==> from <= r.value && ExecAt(es, r.value) && forall j :: from <= j < r.value ==> !ExecAt(es, j)
    ensures r.None? ==> forall j :: from <= j ==> !ExecAt(es, j)
    decreases |es| - from
  {
    if from >= |es| then None
    else if ExecAt(es, from) then Some(from)
    else FirstExec(es, from + 1)
  }

  /** `found_block`: the first pair's `r--p` entry, else the first `r-xp` entry. */
  function SelectBlock(es: seq<MapEntry>): Option<nat>
  {
    match FirstPair(es, 0)
    case Some(i) => Some(i)
    case None => FirstExec(es, 0)
  }

  /**
   * The selection fails exactly when no kept mapping is executable; when it
   * succeeds it names the first `r--p` entry followed by `r-xp`, or, when
   * there is no such pair, the first `r-xp` entry.
   */
  lemma SelectBlockRule(es: seq<MapEntry>)
    ensures SelectBlock(es).None? <==> forall j :: 0 <= j < |es| ==> es[j].perms != "r-xp"
    ensures SelectBlock(es).Some? ==> var i := SelectBlock(es).value;
      || (PairAt(es, i) && forall j :: 0 <= j < i ==> !PairAt(es, j))
      || ((forall j :: 0 <= j < |es| ==> !PairAt(es, j)) && ExecAt(es, i) && forall j :: 0 <= j < i ==> !ExecAt(es, j))
    ensures SelectBlock(es).Some? ==> es[SelectBlock(es).value].perms in {"r--p", "r-xp"}
  {
    if FirstPair(es, 0).Some? {
      var i := FirstPair(es, 0).value;
      assert ExecAt(es, i + 1);
    } else if FirstExec(es, 0).Some? {
      assert ExecAt(es, FirstExec(es, 0).value);
    } else {
      forall j | 0 <= j < |es|
        ensures es[j].perms != "r-xp"
      {
        assert !ExecAt(es, j);
      }
    }
  }

  /**
   * `findModuleBase` on the memory map `lines` for the name `elf`: the base
   * address and the mapping's full path, or None when nothing is kept or no
   * block qualifies.
   */
  function ModuleBase(lines: seq<MapsLine>, elf: string): (r: Option<MapEntry>)
    ensures r.Some? ==> r.value in Filtered(lines, elf)
  {
    var es := Filtered(lines, elf);
    if es == [] then None
    else
      match SelectBlock(es)
      case None => None
      case Some(i) => Some(es[i])
  }

  /** The chosen mapping comes from a parsed line whose path contains the requested name. */
  lemma ModuleBaseFromKeptLine(lines: seq<MapsLine>, elf: string)
    requires ModuleBase(lines, elf).Some?
    ensures exists i :: 0 <= i < |lines| && Kept(lines[i], elf) && ModuleBase(lines, elf).value == EntryOf(lines[i])
    ensures Contains(ModuleBase(lines, elf).value.pathname, elf)
  {
    FilteredMembers(lines, elf);
  }
}
