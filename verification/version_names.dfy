/**
  Version file names: a saved version of a note lives in a file named by its
  nanosecond timestamp, `"%d.go"` (backend/main.go, saveCode and
  cleanupOldVersions), and is read back by `parseTimestamp`.
 */
module VersionNames {
  import opened Wrappers
  import opened Decimal

  /**
    `filepath.Ext`: the suffix of `path` starting at its last '.', searched
    back to the last separator; empty when there is none.
   */
  function Ext(path: string): string
    decreases |path|
  {
    if |path| == 0 || path[|path| - 1] == '/' then ""
    else if path[|path| - 1] == '.' then "."
    else
      var e := Ext(path[..|path| - 1]);
      if e == "" then "" else e + [path[|path| - 1]]
  }

  /**
    The extension is either empty, when no '.' follows the last separator,
    or a suffix of the path that starts with its last '.' and holds no
    separator.
   */
  lemma ExtIsLastDotSuffix(path: string)
    ensures var e := Ext(path);
      && (e == "" || (e[0] == '.' && |e| <= |path| && path[|path| - |e|..] == e))
      && '/' !in e
      && (forall i :: 0 < i < |e| ==> e[i] != '.')
      && (e == "" ==> forall i :: 0 <= i < |path| && '/' !in path[i..] ==> path[i] != '.')
  {
    ExtIsSuffix(path);
    ExtHasOneDot(path);
    NoExtNoDot(path);
  }

  lemma {:induction false} ExtIsSuffix(path: string)
    ensures var e := Ext(path);
      e == "" || (e[0] == '.' && |e| <= |path| && path[|path| - |e|..] == e)
    decreases |path|
  {
    if |path| == 0 || path[|path| - 1] == '/' || path[|path| - 1] == '.' {
    } else {
      var init := path[..|path| - 1];
      ExtIsSuffix(init);
      var e := Ext(init);
      if e != "" {
        assert path[|path| - |e| - 1..] == init[|init| - |e|..] + [path[|path| - 1]];
      }
    }
  }

  lemma {:induction false} ExtHasOneDot(path: string)
    ensures var e := Ext(path);
      && '/' !in e
      && (e != "" ==> e[0] == '.')
      && (forall i :: 0 < i < |e| ==> e[i] != '.')
    decreases |path|
  {
    if |path| == 0 || path[|path| - 1] == '/' || path[|path| - 1] == '.' {
    } else {
      ExtHasOneDot(path[..|path| - 1]);
    }
  }

  lemma {:induction false} NoExtNoDot(path: string)
    ensures Ext(path) == "" ==> forall i :: 0 <= i < |path| && '/' !in path[i..] ==> path[i] != '.'
    decreases |path|
  {
    if |path| == 0 || path[|path| - 1] == '/' || path[|path| - 1] == '.' {
    } else {
      var init := path[..|path| - 1];
      NoExtNoDot(init);
      if Ext(init) == "" {
        forall i | 0 <= i < |path| && '/' !in path[i..]
          ensures path[i] != '.'
        {
          if i < |init| {
            assert path[i..] == init[i..] + [path[|path| - 1]];
          }
        }
      }
    }
  }

  /** A name `filepath.Ext` reports as a Go source file. */
  predicate IsGoFile(name: string) {
    Ext(name) == ".go"
  }

  /** A name is a Go source file exactly when it ends in ".go". */
  lemma GoFileIffSuffix(name: string)
    ensures IsGoFile(name) <==> |name| >= 3 && name[|name| - 3..] == ".go"
  {
    ExtIsLastDotSuffix(name);
    if |name| >= 3 && name[|name| - 3..] == ".go" {
      var n := |name|;
      assert name[..n - 1][..n - 2] == name[..n - 2];
      assert name[..n - 2][..n - 3] == name[..n - 3];
      assert Ext(name[..n - 2]) == ".";
      assert Ext(name[..n - 1]) == ".g";
    }
  }

  /** The name without its extension. */
  function Stem(name: string): string {
    ExtIsLastDotSuffix(name);
    name[..|name| - |Ext(name)|]
  }

  /**
    `parseTimestamp`: the stem of a directory entry name read as a decimal
    64-bit count of nanoseconds. Entry names contain no separator, so
    `filepath.Base` leaves them unchanged.
   */
  function ParseTimestamp(name: string): (r: Option<int>)
    ensures r.Some? ==> IsInt64(r.value) && IsSpelling(Stem(name), r.value)
    ensures r.None? ==> forall v :: !(IsInt64(v) && IsSpelling(Stem(name), v))
  {
    ParseInt64Spells(Stem(name));
    ParseInt64(Stem(name))
  }

  /** The name a version saved at nanosecond time `t` is written under, and removed under. */
  function VersionFileName(t: int): string {
    FormatInt(t) + ".go"
  }

  /** A version's file name is a ".go" name whose stem is the decimal text of its timestamp. */
  lemma VersionFileNameParts(t: int)
    ensures IsGoFile(VersionFileName(t))
    ensures Stem(VersionFileName(t)) == FormatInt(t)
  {
    var name := VersionFileName(t);
    GoFileIffSuffix(name);
    assert name[..|name| - 3] == FormatInt(t);
  }

  /** Every name a version is saved under parses back to its timestamp. */
  lemma VersionFileNameRoundTrip(t: int)
    requires IsInt64(t)
    ensures ParseTimestamp(VersionFileName(t)) == Some(t)
  {
    VersionFileNameParts(t);
    FormatParseRoundTrip(t);
  }

  /** Distinct timestamps give distinct file names. */
  lemma VersionFileNameInjective(a: int, b: int)
    requires VersionFileName(a) == VersionFileName(b)
    ensures a == b
  {
    VersionFileNameParts(a);
    VersionFileNameParts(b);
    FormatIntInjective(a, b);
  }

  /**
    Rebuilding the name from the parsed timestamp, as pruning does, finds the
    original file exactly when its stem is canonical: no '+', no leading
    zero, no "-0".
   */
  lemma ReformatIffCanonical(name: string, t: int)
    requires IsGoFile(name)
    requires ParseTimestamp(name) == Some(t)
    ensures VersionFileName(t) == name <==> Canonical(Stem(name))
  {
    GoFileIffSuffix(name);
    assert name == Stem(name) + ".go";
    CanonicalReformat(Stem(name), t);
    VersionFileNameParts(t);
  }

}
