/** The recursive search for a firmware file. */
module PatchSearch {
  import opened Common

  /** A directory entry as readdir lists it; `kind` is its d_type. */
  datatype Entry = Entry(name: string, kind: nat, content: Content)

  /** What opening something as a directory yields. */
  datatype Content = Unreadable | Listing(entries: seq<Entry>)

  const FW_EXT := ".hcd"

  /** The bit test of the source: directories (4), but also block devices (6), sockets (12), whiteouts (14). */
  predicate Descends(e: Entry) {
    e.kind / 4 % 2 == 1
  }

  predicate IsDot(name: string) {
    name == "." || name == ".."
  }

  /** A non-directory whose name starts with the chip name: the scan of its directory ends here. */
  predicate EndsScan(e: Entry, chip: string) {
    !Descends(e) && chip <= e.name
  }

  predicate HasExtension(name: string) {
    |name| >= |FW_EXT| && name[|name| - |FW_EXT|..] == FW_EXT
  }

  function Join(dir: string, name: string): string {
    dir + "/" + name
  }

  /** The scan of a directory from entry i on. */
  function Scan(dir: string, entries: seq<Entry>, i: nat, chip: string): Option<string>
    requires i <= |entries|
    decreases entries, 0, |entries| - i
  {
    if i == |entries| then None
    else
      var e := entries[i];
      if Descends(e) then
        var r := if IsDot(e.name) then None else Search(Join(dir, e.name), e.content, chip);
        if r.Some? then r else Scan(dir, entries, i + 1, chip)
      else if chip <= e.name then
        if HasExtension(e.name) then Some(Join(dir, e.name)) else None
      else Scan(dir, entries, i + 1, chip)
  }

  function Search(dir: string, content: Content, chip: string): Option<string>
    decreases content, 1
  {
    if content.Listing? then Scan(dir, content.entries, 0, chip) else None
  }

  /** Where the caller wants the path. */
  class Location {
    var text: string

    constructor ()
      ensures text == ""
    {
      text := "";
    }
  }

  method LocatePatch(dir: string, content: Content, chip: string, location: Location) returns (ret: int)
    modifies location
    ensures ret == if Search(dir, content, chip).Some? then 0 else -1
    ensures location.text == Search(dir, content, chip).GetOr(old(location.text))
    decreases content
  {
    if content.Unreadable? {
      return -1;
    }
    ret := -1;
    var entries, i := content.entries, 0;
    while i < |entries|
      invariant 0 <= i <= |entries| && ret == -1 && location.text == old(location.text)
      invariant Search(dir, content, chip) == Scan(dir, entries, i, chip)
    {
      var e := entries[i];
      i := i + 1;
      if Descends(e) {
        if IsDot(e.name) {
          continue;
        }
        ret := LocatePatch(Join(dir, e.name), e.content, chip, location);
        if ret == 0 {
          break;
        }
      } else if chip <= e.name {
        if |e.name| < |FW_EXT| || e.name[|e.name| - |FW_EXT|..] != FW_EXT {
          break;
        }
        location.text := Join(dir, e.name);
        ret := 0;
        break;
      }
    }
  }

  // ---------- What the search finds, by position ----------

  /** Of an entry type's bits the one for directories is set. */
  predicate IsDirectory(e: Entry) {
    e.kind % 8 >= 4
  }

  /** A file whose name starts with the chip name. */
  predicate IsChipFile(e: Entry, chip: string) {
    !IsDirectory(e) && |e.name| >= |chip| && e.name[..|chip|] == chip
  }

  predicate EndsInHcd(name: string) {
    |name| >= 4 && name[|name| - 4] == '.' && name[|name| - 3] == 'h' && name[|name| - 2] == 'c' && name[|name| - 1] == 'd'
  }

  /** `at` leads, entry number by entry number, through directories to a firmware file of the chip,
      and no listing on the way has a file that ends its scan before the entry taken. */
  predicate Leads(content: Content, at: seq<nat>, chip: string)
    decreases at
  {
    && at != [] && content.Listing? && at[0] < |content.entries|
    && (forall k :: 0 <= k < at[0] ==> !IsChipFile(content.entries[k], chip))
    && var e := content.entries[at[0]];
       if |at| == 1 then IsChipFile(e, chip) && EndsInHcd(e.name)
       else IsDirectory(e) && e.name != "." && e.name != ".." && Leads(e.content, at[1..], chip)
  }

  /** The path text of such a position. */
  function PathOf(dir: string, content: Content, at: seq<nat>, chip: string): string
    requires Leads(content, at, chip)
    decreases at
  {
    var e := content.entries[at[0]];
    if |at| == 1 then dir + "/" + e.name else PathOf(dir + "/" + e.name, e.content, at[1..], chip)
  }

  lemma SameTests(e: Entry, chip: string)
    ensures Descends(e) <==> IsDirectory(e)
    ensures EndsScan(e, chip) <==> IsChipFile(e, chip)
    ensures HasExtension(e.name) <==> EndsInHcd(e.name)
  {
    if |e.name| >= 4 {
      var x := e.name[|e.name| - 4..];
      assert EndsInHcd(e.name) ==> x == ".hcd";
      assert ".hcd" == ['.', 'h', 'c', 'd'];
    }
  }

  /** Position a comes no later than b in a depth-first walk in listing order. */
  predicate NotAfter(a: seq<nat>, b: seq<nat>)
    decreases a
  {
    a == [] || (b != [] && (a[0] < b[0] || (a[0] == b[0] && NotAfter(a[1..], b[1..]))))
  }

  /** The position found by the search is `at`, and nothing that leads to a firmware file comes before. */
  ghost predicate IsFirst(dir: string, content: Content, chip: string, at: seq<nat>, path: string) {
    && Leads(content, at, chip) && path == PathOf(dir, content, at, chip)
    && forall other: seq<nat> :: Leads(content, other, chip) ==> NotAfter(at, other)
  }

  /** The scan from entry i on finds the first position at or behind i, or there is none. */
  lemma {:induction false} ScanFindsFirst(dir: string, entries: seq<Entry>, i: nat, chip: string) returns (at: seq<nat>)
    requires i <= |entries|
    requires forall k :: 0 <= k < i ==> !IsChipFile(entries[k], chip)
    ensures var r := Scan(dir, entries, i, chip);
            if r.Some? then
              && Leads(Listing(entries), at, chip) && at[0] >= i && r.value == PathOf(dir, Listing(entries), at, chip)
              && forall other: seq<nat> :: Leads(Listing(entries), other, chip) && other[0] >= i ==> NotAfter(at, other)
            else forall other: seq<nat> :: Leads(Listing(entries), other, chip) ==> other[0] < i
    decreases entries, 0, |entries| - i
  {
    at := [];
    if i < |entries| {
      var e := entries[i];
      SameTests(e, chip);
      if Descends(e) {
        if !IsDot(e.name) {
          var sub := SearchFindsFirst(Join(dir, e.name), e.content, chip);
          if Search(Join(dir, e.name), e.content, chip).Some? {
            at := [i] + sub;
            assert at[1..] == sub;
            return;
          }
        }
        assert forall other: seq<nat> :: Leads(Listing(entries), other, chip) ==> other[0] != i;
        at := ScanFindsFirst(dir, entries, i + 1, chip);
      } else if chip <= e.name {
        at := [i];
      } else {
        at := ScanFindsFirst(dir, entries, i + 1, chip);
      }
    }
  }

  lemma {:induction false} SearchFindsFirst(dir: string, content: Content, chip: string) returns (at: seq<nat>)
    ensures var r := Search(dir, content, chip);
            if r.Some? then IsFirst(dir, content, chip, at, r.value)
            else forall other: seq<nat> :: !Leads(content, other, chip)
    decreases content, 1
  {
    at := [];
    if content.Listing? {
      at := ScanFindsFirst(dir, content.entries, 0, chip);
    }
  }

  ghost predicate HasFirmware(content: Content, chip: string) {
    exists at: seq<nat> :: Leads(content, at, chip)
  }

  /** MAIN RESULT. On every directory tree the search succeeds if and only if some position leads to
      a firmware file, and then it gives the path of the first one in depth-first listing order. */
  lemma SearchIff(dir: string, content: Content, chip: string)
    ensures Search(dir, content, chip).Some? <==> HasFirmware(content, chip)
    ensures Search(dir, content, chip).Some? ==>
              exists at: seq<nat> :: IsFirst(dir, content, chip, at, Search(dir, content, chip).value)
  {
    var at := SearchFindsFirst(dir, content, chip);
    if Search(dir, content, chip).Some? {
      assert IsFirst(dir, content, chip, at, Search(dir, content, chip).value) && Leads(content, at, chip);
      assert HasFirmware(content, chip);
    }
  }

  /** The path found lies below the root and ends in a file named after the chip with the extension. */
  lemma {:induction false} PathNamesFirmware(dir: string, content: Content, at: seq<nat>, chip: string)
    returns (name: string)
    requires Leads(content, at, chip)
    ensures chip <= name && EndsInHcd(name)
    ensures var p := PathOf(dir, content, at, chip);
            dir + "/" <= p && |p| > |name| && p[|p| - |name|..] == name && p[|p| - |name| - 1] == '/'
    decreases at
  {
    var e := content.entries[at[0]];
    if |at| == 1 {
      name := e.name;
    } else {
      name := PathNamesFirmware(Join(dir, e.name), e.content, at[1..], chip);
      assert dir + "/" <= Join(dir, e.name) + "/";
    }
  }

  /** Types as directory listings give them: directories (4) are searched, files (8) and links (10) are not. */
  lemma TypesSearched(e: Entry)
    ensures e.kind == 4 ==> Descends(e)
    ensures e.kind == 8 || e.kind == 10 ==> !Descends(e)
  {
  }

  /** A chip-named file without the extension hides a firmware file listed behind it. */
  lemma HiddenFirmware()
    ensures var listing := [Entry("BCM.txt", 8, Unreadable), Entry("BCM.hcd", 8, Unreadable)];
            Search("/fw", Listing(listing), "BCM") == None
            && Search("/fw", Listing(listing[1..]), "BCM") == Some("/fw/BCM.hcd")
  {
    var listing := [Entry("BCM.txt", 8, Unreadable), Entry("BCM.hcd", 8, Unreadable)];
    assert Join("/fw", "BCM.hcd") == "/fw/BCM.hcd";
    assert "BCM.txt"[3..] == ".txt" && "BCM.hcd"[3..] == ".hcd";
    assert ".txt"[1] != ".hcd"[1];
    assert listing[1..] == [Entry("BCM.hcd", 8, Unreadable)];
  }
}
