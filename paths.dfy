/** The filesystem as the gateway sees it: `filepath.Join` for building paths
    and `os.Stat` for looking them up. */
module Paths {
  import opened Strings

  /** `filepath.Join`: the non-empty elements separated by `/`. Go's final
      `filepath.Clean` step (folding `.`, `..` and repeated slashes) is not
      modelled. */
  function Join(elems: seq<string>): (r: string)
    ensures r == "" <==> forall k :: 0 <= k < |elems| ==> elems[k] == ""
    ensures |elems| > 0 && elems[0] != "" ==> HasPrefix(r, elems[0])
  {
    if elems == [] then ""
    else
      var tail := Join(elems[1..]);
      if elems[0] == "" then tail
      else if tail == "" then elems[0]
      else elems[0] + "/" + tail
  }

  /** A Go `os.FileMode`: permission bits in the low nine bits, file type
      bits (such as `ModeDir`, bit 31) above them. */
  type FileMode = bv32

  /** `0111`: the owner, group and other execute bits. */
  const ExecuteBits: FileMode := 0x49
  const OwnerExecute: FileMode := 0x40
  const GroupExecute: FileMode := 0x08
  const OtherExecute: FileMode := 0x01
  const ModeDir: FileMode := 0x8000_0000

  /** What `os.Stat` can see: every existing path with its mode. A path that
      is not a key makes `os.Stat` fail. */
  type FileSystem = map<string, FileMode>

  lemma JoinTwo(a: string, b: string)
    requires a != "" && b != ""
    ensures Join([a, b]) == a + "/" + b
  {
    assert [b][1..] == [];
    assert Join([b]) == b;
    assert [a, b][1..] == [b];
  }

  lemma JoinThree(a: string, b: string, c: string)
    requires a != "" && b != "" && c != ""
    ensures Join([a, b, c]) == a + "/" + b + "/" + c
  {
    assert [a, b, c][1..] == [b, c];
    JoinTwo(b, c);
  }
}
