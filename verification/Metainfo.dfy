/** The lengths a metainfo states: of the torrent, and of its files. */
module Metainfo {
  import opened Wrappers
  import opened Storage

  datatype Lengths = Lengths(total: int, files: seq<int>)

  /** length: the single-file length, if present; files: the lengths in the file list, if present, a
      missing one counting as zero. A total of zero is an error. */
  method ParseLengths(length: Option<int>, files: Option<seq<int>>) returns (r: Option<Lengths>)
    ensures r == Parsed(length, files)
    ensures var single := if length.Some? then length.value else 0;
            match files {
              case None => r == if single == 0 then None else Some(Lengths(single, [single]))
              case Some(list) =>
                r == if single + Sum(list) == 0 then None else Some(Lengths(single + Sum(list), list))
            }
  {
    var totalLength := 0;
    var filesList := [];
    if length.Some? {
      totalLength := length.value;
    }
    if files.Some? {
      ghost var start := totalLength;
      for i := 0 to |files.value|
        invariant filesList == files.value[..i] && totalLength == start + Sum(filesList)
      {
        assert files.value[..i + 1] == files.value[..i] + [files.value[i]];
        assert (filesList + [files.value[i]])[..i] == filesList;
        totalLength := totalLength + files.value[i];
        filesList := filesList + [files.value[i]];
      }
      assert files.value[..|files.value|] == files.value;
    }
    if totalLength == 0 {
      return None;
    }
    if files.None? {
      assert filesList + [totalLength] == [totalLength];
      filesList := filesList + [totalLength];
    }
    return Some(Lengths(totalLength, filesList));
  }

  function Parsed(length: Option<int>, files: Option<seq<int>>): Option<Lengths> {
    var single := if length.Some? then length.value else 0;
    var total := if files.Some? then single + Sum(files.value) else single;
    if total == 0 then None else Some(Lengths(total, if files.Some? then files.value else [total]))
  }

  /** The files laid out on disk add up to the torrent's length unless the metainfo has both a length
      other than zero and a file list with entries; then they differ by that length. */
  lemma LengthsAgree(length: Option<int>, files: Option<seq<int>>)
    requires Parsed(length, files).Some?
    ensures var r := Parsed(length, files).value;
            && (Sum(FileLengths(r.files, r.total)) == r.total
                <==> length in {None, Some(0)} || files in {None, Some([])})
            && (length.Some? && files.Some? && files.value != [] ==>
                  Sum(FileLengths(r.files, r.total)) == r.total - length.value)
  {
    var r := Parsed(length, files).value;
    assert [r.total][..0] == [];
    assert Sum([r.total]) == r.total;
  }
}
