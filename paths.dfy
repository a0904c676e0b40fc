/** `add_string_to_path` (src/dataset.py): inserts a string between a file's
    stem and its extension, as in data.csv -> data1.csv. */
module Paths {
  import opened Wrappers
  import opened Text

  /** A pathlib path: its parent directories and its final component. */
  datatype Path = Path(dirs: seq<string>, name: string)

  /** `name, suffix = file_name.split(sep='.')` raises ValueError unless the
      split yields exactly two pieces. */
  datatype PathError = UnpackError(pieces: nat)

  function AddStringToPath(p: Path, s: string): (r: Result<Path, PathError>)
    ensures r.Ok? <==> Occurrences(p.name, '.') == 1
    ensures r.Ok? ==> r.value.dirs == p.dirs
    ensures r.Err? ==> r.error.pieces != 2
  {
    SplitCount(p.name, '.');
    var pieces := Split(p.name, '.');
    if |pieces| != 2 then Err(UnpackError(|pieces|))
    else Ok(Path(p.dirs, pieces[0] + s + "." + pieces[1]))
  }

  /** For a name `stem.suffix` the new name is `stem<s>.suffix`: the parent and
      the extension are kept. */
  lemma AddStringToPathName(p: Path, s: string, stem: string, suffix: string)
    requires p.name == stem + "." + suffix
    requires '.' !in stem && '.' !in suffix
    ensures AddStringToPath(p, s) == Ok(Path(p.dirs, stem + s + "." + suffix))
  {
    assert Join([stem, suffix], '.') == p.name;
    SplitJoin([stem, suffix], '.');
  }

  /** Adding the empty string gives back the same path. */
  lemma AddEmptyStringToPath(p: Path)
    requires Occurrences(p.name, '.') == 1
    ensures AddStringToPath(p, "") == Ok(p)
  {
    SplitCount(p.name, '.');
    JoinSplit(p.name, '.');
    var pieces := Split(p.name, '.');
    assert Join(pieces, '.') == Join(pieces[..1], '.') + "." + pieces[1];
    assert pieces[..1] == [pieces[0]];
    assert pieces[0] + "" + "." + pieces[1] == p.name;
  }
}
