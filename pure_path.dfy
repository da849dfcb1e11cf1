/**
 * The two parts of `pathlib.PurePath` the modelled code reads: `name` and,
 * with Python 3.12's rule, `suffix`. Paths are `/`-separated text.
 */
module PurePath {
  import opened PyText

  /** `PurePath(p).name`: the final component, the text after the last `/`. */
  function Name(p: string): string {
    p[RFind(p, '/', |p|) + 1..]
  }

  /** The final component is a tail of the path, holds no `/`, and follows a `/` when shorter than the path. */
  lemma NameShape(p: string)
    ensures |Name(p)| <= |p| && Name(p) == p[|p| - |Name(p)|..]
    ensures '/' !in Name(p)
    ensures |Name(p)| < |p| ==> p[|p| - |Name(p)| - 1] == '/'
  {
  }

  /**
   * `PurePath(p).suffix`: the final component's last `.` and what follows it,
   * provided that dot is neither the first nor the last character of the
   * component; otherwise the empty string.
   */
  function Suffix(p: string): (r: string) {
    var name := Name(p);
    var i := RFind(name, '.', |name|);
    if 0 < i < |name| - 1 then name[i..] else []
  }

  /**
   * A suffix is empty or a dot followed by at least one character and no
   * further dot, and it is a proper tail of the final component.
   */
  lemma SuffixShape(p: string)
    ensures Suffix(p) == [] || (|Suffix(p)| >= 2 && Suffix(p)[0] == '.' && '.' !in Suffix(p)[1..])
    ensures Suffix(p) == [] || |Suffix(p)| < |Name(p)|
    ensures Suffix(p) == Name(p)[|Name(p)| - |Suffix(p)|..]
  {
    var name := Name(p);
    var i := RFind(name, '.', |name|);
    if 0 < i < |name| - 1 {
      var r := name[i..];
      assert Suffix(p) == r;
      forall k | 0 <= k < |r| - 1
        ensures r[1..][k] != '.'
      {
        assert r[1..][k] == name[i + 1 + k];
      }
    } else {
      assert Suffix(p) == [];
    }
  }

  /** Appending text free of `/` extends the final component. */
  lemma NameOfAppended(stem: string, tail: string)
    requires '/' !in tail
    ensures Name(stem + tail) == Name(stem) + tail
  {
    var p := stem + tail;
    var i, j := RFind(p, '/', |p|), RFind(stem, '/', |stem|);
    assert i == j by {
      forall k | j < k < |p|
        ensures p[k] != '/'
      {
        if k < |stem| {
          assert p[k] == stem[k];
        } else {
          assert p[k] == tail[k - |stem|];
        }
      }
      if j >= 0 {
        assert p[j] == stem[j];
        RFindAt(p, '/', |p|, j);
      }
    }
    assert p[i + 1..] == stem[j + 1..] + tail;
  }

  /**
   * Writing `stem + "." + ext` (with a non-empty final stem component and an
   * extension free of `.` and `/`) gives back `"." + ext` as the suffix.
   */
  lemma SuffixOfExtension(stem: string, ext: string)
    requires stem != [] && stem[|stem| - 1] != '/'
    requires ext != [] && '.' !in ext && '/' !in ext
    ensures Suffix(stem + ['.'] + ext) == ['.'] + ext
  {
    var tail := ['.'] + ext;
    assert stem + ['.'] + ext == stem + tail;
    NameOfAppended(stem, tail);
    NameShape(stem);
    SuffixOfComponent(stem + tail, Name(stem), ext);
  }

  lemma SuffixOfComponent(p: string, front: string, ext: string)
    requires front != [] && ext != [] && '.' !in ext
    requires Name(p) == front + (['.'] + ext)
    ensures Suffix(p) == ['.'] + ext
  {
    var name := Name(p);
    assert front + ['.'] + ext == name;
    LastDot(front, ext);
    assert name[|front|..] == ['.'] + ext;
  }

  lemma LastDot(front: string, ext: string)
    requires '.' !in ext
    ensures RFind(front + ['.'] + ext, '.', |front| + 1 + |ext|) == |front|
  {
    var name := front + ['.'] + ext;
    forall k | |front| < k < |name|
      ensures name[k] != '.'
    {
      assert name[k] == ext[k - |front| - 1];
    }
    RFindAt(name, '.', |name|, |front|);
  }

  /** A final component without a dot past its first character has no suffix. */
  lemma NoDotNoSuffix(p: string)
    requires forall k :: 0 < k < |Name(p)| ==> Name(p)[k] != '.'
    ensures Suffix(p) == []
  {
  }
}
