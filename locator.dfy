/**
 * The configuration locator of extension.js: `getFile` picks the GRUB
 * configuration to read, and `findFile` searches a directory tree depth-first
 * for the first regular file named `grub.cfg`.
 */
module Locator {
  import opened Wrappers

  /** The answers of a file-type query (Gio's FileType). */
  datatype FileType = Unknown | Regular | Directory | SymbolicLink | Special | Shortcut | Mountable

  /**
   * A file-system node as directory enumeration reports it: a directory with
   * its children in enumeration order, a regular file, or anything else.
   */
  datatype Node = Dir(name: string, children: seq<Node>) | File(name: string) | OtherNode(name: string)

  const ConfigName: string := "grub.cfg"
  /** Fedora-style link to the EFI configuration, queried without following links. */
  const EfiLinkPath: string := "/etc/grub2-efi.cfg"
  /** Present as a directory exactly when the machine booted through UEFI. */
  const FirmwarePath: string := "/sys/firmware/efi"
  /** Where the search for an EFI configuration starts. */
  const EfiMount: string := "/boot/efi"
  /** The configuration used whenever the EFI search is not made or finds nothing. */
  const FallbackPath: string := "/boot/grub/grub.cfg"

  function ConfigIn(dir: string): string { dir + "/" + ConfigName }

  /** `path` starts with `dir` followed by a slash. */
  predicate Under(path: string, dir: string) {
    |path| > |dir| && path[..|dir| + 1] == dir + "/"
  }

  lemma UnderTransitive(path: string, mid: string, dir: string)
    requires Under(path, mid) && Under(mid, dir)
    ensures Under(path, dir)
  {
    assert path[..|dir| + 1] == path[..|mid| + 1][..|dir| + 1];
    assert mid[..|dir| + 1] == (mid + "/")[..|dir| + 1];
  }

  /** What one enumerated child contributes: a hit, the result of searching it, or nothing. */
  function Visit(dir: string, child: Node): (r: Option<string>)
    ensures r.Some? ==> Under(r.value, dir)
    decreases child, 1
  {
    if child.File? && child.name == ConfigName then
      Some(ConfigIn(dir))
    else if child.Dir? then
      var sub := dir + "/" + child.name;
      var r := Search(sub, child);
      if r.Some? then
        assert Under(sub, dir) by { assert sub[..|dir| + 1] == dir + "/"; }
        UnderTransitive(r.value, sub, dir);
        r
      else r
    else
      None
  }

  /** The children of one directory, visited in order until the first one that yields a path. */
  function SearchChildren(dir: string, children: seq<Node>): (r: Option<string>)
    ensures r.Some? ==> Under(r.value, dir)
    decreases children
  {
    if children == [] then None
    else
      var r := Visit(dir, children[0]);
      if r.Some? then r else SearchChildren(dir, children[1..])
  }

  /** The value `findFile` computes for the node at `path`: nothing unless it is a directory. */
  function Search(path: string, node: Node): (r: Option<string>)
    ensures r.Some? ==> Under(r.value, path)
    decreases node, 0
  {
    if node.Dir? then SearchChildren(path, node.children) else None
  }

  /**
   * `dir` names a directory of the tree rooted at `node` (which stands at
   * `path`) that directly contains a regular file named grub.cfg.
   */
  ghost predicate HoldsConfig(path: string, node: Node, dir: string)
    decreases node, 0
  {
    && node.Dir?
    && (|| (dir == path && HasConfigFile(node.children))
        || (exists i :: 0 <= i < |node.children| && SubdirHolds(path, node.children[i], dir)))
  }

  /** Some child is a regular file named grub.cfg. */
  predicate HasConfigFile(children: seq<Node>) {
    exists i :: 0 <= i < |children| && children[i].File? && children[i].name == ConfigName
  }

  /** `child` is a subdirectory of the directory at `path` whose tree holds grub.cfg in `dir`. */
  ghost predicate SubdirHolds(path: string, child: Node, dir: string)
    decreases child, 1
  {
    child.Dir? && HoldsConfig(path + "/" + child.name, child, dir)
  }

  /** Soundness: any path found is grub.cfg inside a directory of the tree that holds one. */
  lemma {:induction false} SearchSound(path: string, node: Node)
    ensures Search(path, node).Some? ==>
      exists dir :: HoldsConfig(path, node, dir) && Search(path, node).value == ConfigIn(dir)
    decreases node, 1
  {
    if node.Dir? {
      ChildrenSound(path, node, 0);
      assert node.children[0..] == node.children;
    }
  }

  lemma {:induction false} ChildrenSound(path: string, node: Node, k: nat)
    requires node.Dir? && k <= |node.children|
    ensures SearchChildren(path, node.children[k..]).Some? ==>
      exists dir :: HoldsConfig(path, node, dir) && SearchChildren(path, node.children[k..]).value == ConfigIn(dir)
    decreases node, 0, |node.children| - k
  {
    var cs := node.children[k..];
    if k < |node.children| {
      assert cs[0] == node.children[k];
      assert cs[1..] == node.children[k + 1..];
      var c := node.children[k];
      if Visit(path, c).Some? {
        if c.File? && c.name == ConfigName {
          assert HoldsConfig(path, node, path);
        } else {
          SearchSound(path + "/" + c.name, c);
          var dir :| HoldsConfig(path + "/" + c.name, c, dir) && Search(path + "/" + c.name, c).value == ConfigIn(dir);
          assert SubdirHolds(path, node.children[k], dir);
          assert HoldsConfig(path, node, dir);
        }
      } else {
        ChildrenSound(path, node, k + 1);
      }
    }
  }

  /** Completeness: if some directory of the tree holds grub.cfg, the search finds a path. */
  lemma {:induction false} SearchComplete(path: string, node: Node, dir: string)
    requires HoldsConfig(path, node, dir)
    ensures Search(path, node).Some?
    decreases node, 1
  {
    var i :| 0 <= i < |node.children| && (
      || (dir == path && node.children[i].File? && node.children[i].name == ConfigName)
      || SubdirHolds(path, node.children[i], dir));
    var c := node.children[i];
    if !(c.File? && c.name == ConfigName) {
      assert SubdirHolds(path, c, dir);
      SearchComplete(path + "/" + c.name, c, dir);
    }
    ChildrenComplete(path, node, 0, i);
    assert node.children[0..] == node.children;
  }

  lemma {:induction false} ChildrenComplete(path: string, node: Node, k: nat, i: nat)
    requires node.Dir? && k <= i < |node.children| && Visit(path, node.children[i]).Some?
    ensures SearchChildren(path, node.children[k..]).Some?
    decreases i - k
  {
    var cs := node.children[k..];
    assert cs[0] == node.children[k];
    assert cs[1..] == node.children[k + 1..];
    if k < i {
      ChildrenComplete(path, node, k + 1, i);
    }
  }

  /** The search finds a path exactly when some directory of the tree holds grub.cfg. */
  lemma SearchFindsIff(path: string, node: Node)
    ensures Search(path, node).Some? <==> exists dir :: HoldsConfig(path, node, dir)
  {
    SearchSound(path, node);
    if exists dir :: HoldsConfig(path, node, dir) {
      var dir :| HoldsConfig(path, node, dir);
      SearchComplete(path, node, dir);
    }
  }

  /**
   * Short circuit: the children are visited in enumeration order and the
   * search returns what the first child that yields anything yields.
   */
  lemma {:induction false} FirstHitWins(dir: string, children: seq<Node>, j: nat)
    requires j < |children| && Visit(dir, children[j]).Some?
    requires forall k :: 0 <= k < j ==> Visit(dir, children[k]).None?
    ensures SearchChildren(dir, children) == Visit(dir, children[j])
    decreases j
  {
    if j > 0 {
      assert forall k :: 0 <= k < j - 1 ==> children[1..][k] == children[k + 1];
      FirstHitWins(dir, children[1..], j - 1);
    }
  }

  /** When no child yields anything the search of the directory yields nothing. */
  lemma {:induction false} NoHitNothing(dir: string, children: seq<Node>)
    requires forall k :: 0 <= k < |children| ==> Visit(dir, children[k]).None?
    ensures SearchChildren(dir, children).None?
    decreases |children|
  {
    if children != [] {
      assert forall k :: 0 <= k < |children| - 1 ==> children[1..][k] == children[k + 1];
      NoHitNothing(dir, children[1..]);
    }
  }

  /**
   * `findFile`: nothing unless `dir` is a directory; otherwise enumerate its
   * children while nothing is found, taking a regular grub.cfg at once and
   * searching subdirectories recursively.
   */
  method FindFile(path: string, dir: Node) returns (rv: Option<string>)
    ensures rv == Search(path, dir)
    decreases dir
  {
    rv := None;
    if dir.Dir? {
      var i := 0;
      while rv.None? && i < |dir.children|
        invariant 0 <= i <= |dir.children|
        invariant rv.None? ==> SearchChildren(path, dir.children[i..]) == Search(path, dir)
        invariant rv.Some? ==> rv == Search(path, dir)
      {
        var file := dir.children[i];
        assert dir.children[i..][0] == file;
        assert dir.children[i..][1..] == dir.children[i + 1..];
        if file.File? && file.name == ConfigName {
          rv := Some(ConfigIn(path));
        } else if file.Dir? {
          rv := FindFile(path + "/" + file.name, file);
        }
        i := i + 1;
      }
    }
  }

  /** The UEFI indirection signal: the EFI link is a symbolic link and the firmware directory exists. */
  predicate UefiIndirection(efiLinkType: FileType, firmwareType: FileType)
    ensures UefiIndirection(efiLinkType, firmwareType) ==> efiLinkType != Unknown && firmwareType != Unknown
    ensures efiLinkType == Regular ==> !UefiIndirection(efiLinkType, firmwareType)
    ensures firmwareType == SymbolicLink ==> !UefiIndirection(efiLinkType, firmwareType)
  {
    efiLinkType == SymbolicLink && firmwareType == Directory
  }

  /**
   * `getFile`, given the answers of its file-type queries (`efiLinkType` for
   * /etc/grub2-efi.cfg and `firmwareType` for /sys/firmware/efi, both without
   * following links) and the tree at /boot/efi: always a path; an EFI
   * configuration found by the search exactly when the indirection signal is
   * present and the tree holds one, the fallback path otherwise.
   */
  function GetFile(efiLinkType: FileType, firmwareType: FileType, efi: Node): (p: string)
    ensures p != FallbackPath ==>
      && UefiIndirection(efiLinkType, firmwareType)
      && exists dir :: HoldsConfig(EfiMount, efi, dir) && p == ConfigIn(dir)
    ensures p == FallbackPath <==>
      !(UefiIndirection(efiLinkType, firmwareType) && exists dir :: HoldsConfig(EfiMount, efi, dir))
  {
    var found := if UefiIndirection(efiLinkType, firmwareType) then Search(EfiMount, efi) else None;
    SearchFindsIff(EfiMount, efi);
    SearchSound(EfiMount, efi);
    if found.Some? then
      assert found.value[..|EfiMount| + 1] == EfiMount + "/";
      assert found.value[6] != FallbackPath[6];
      found.value
    else
      FallbackPath
  }

  /** Whatever `getFile` returns names a file called grub.cfg. */
  lemma GetFileNamesConfig(efiLinkType: FileType, firmwareType: FileType, efi: Node)
    ensures exists dir :: GetFile(efiLinkType, firmwareType, efi) == ConfigIn(dir)
  {
    var p := GetFile(efiLinkType, firmwareType, efi);
    if p == FallbackPath {
      assert p == ConfigIn("/boot/grub");
    }
  }

  /** Without the UEFI indirection signal the fallback is chosen, whatever /boot/efi holds. */
  lemma NoIndirectionFallsBack(efiLinkType: FileType, firmwareType: FileType, efi: Node)
    requires !UefiIndirection(efiLinkType, firmwareType)
    ensures GetFile(efiLinkType, firmwareType, efi) == FallbackPath
  {
  }

  /** With the signal, the configuration found by the search under /boot/efi is chosen. */
  lemma IndirectionUsesSearch(efi: Node, dir: string)
    requires HoldsConfig(EfiMount, efi, dir)
    ensures Search(EfiMount, efi) == Some(GetFile(SymbolicLink, Directory, efi))
  {
    SearchComplete(EfiMount, efi, dir);
  }
}
