/**
 * `filepath.Base` of Go's `path/filepath` package on a Unix host, where the
 * path separator is '/' and paths have no volume name.
 */
module FilePath {

  const Separator: char := '/'

  /** The path without its trailing separators. */
  function TrimTrailingSeparators(p: string): string
  {
    if p != [] && p[|p| - 1] == Separator then TrimTrailingSeparators(p[..|p| - 1]) else p
  }

  /** What follows the last separator of `p` (all of `p` when it has none). */
  function LastElement(p: string): string
  {
    if p == [] then []
    else if p[|p| - 1] == Separator then []
    else LastElement(p[..|p| - 1]) + [p[|p| - 1]]
  }

  /**
   * The last element of a path: trailing separators are dropped first, an
   * empty path gives ".", and a path of separators only gives "/".
   */
  function Base(p: string): string
  {
    if p == [] then "."
    else
      var t := TrimTrailingSeparators(p);
      if t == [] then [Separator]
      else
        var b := LastElement(t);
        if b == [] then [Separator] else b
  }

  /** Trimming removes exactly the run of separators at the end. */
  lemma {:induction false} TrimTrailingSeparatorsSpec(p: string)
    ensures var r := TrimTrailingSeparators(p);
      && |r| <= |p| && r == p[..|r|]
      && (r == [] || r[|r| - 1] != Separator)
      && forall i :: |r| <= i < |p| ==> p[i] == Separator
    decreases |p|
  {
    if p != [] && p[|p| - 1] == Separator {
      TrimTrailingSeparatorsSpec(p[..|p| - 1]);
    }
  }

  /** The last element holds no separator and is what follows the last one in `p`. */
  lemma {:induction false} LastElementSpec(p: string)
    ensures var r := LastElement(p);
      && Separator !in r
      && |r| <= |p| && r == p[|p| - |r|..]
      && (|r| < |p| ==> p[|p| - |r| - 1] == Separator)
    decreases |p|
  {
    if p != [] && p[|p| - 1] != Separator {
      LastElementSpec(p[..|p| - 1]);
    }
  }

  /**
   * A base name is never empty and holds no separator unless it is the
   * root "/" itself; the empty path has base ".".
   */
  lemma BaseSpec(p: string)
    ensures Base(p) != []
    ensures Base(p) == [Separator] || Separator !in Base(p)
    ensures p == [] ==> Base(p) == "."
  {
    if p != [] {
      var t := TrimTrailingSeparators(p);
      if t != [] {
        LastElementSpec(t);
      }
    }
  }

  /** Appending separator-free characters extends the last element by them. */
  lemma {:induction false} LastElementAppend(p: string, name: string)
    requires Separator !in name
    ensures LastElement(p + name) == LastElement(p) + name
    decreases |name|
  {
    if name != [] {
      var init := name[..|name| - 1];
      LastElementAppend(p, init);
      assert (p + name)[..|p + name| - 1] == p + init;
      assert name == init + [name[|name| - 1]];
    } else {
      assert p + name == p;
    }
  }

  /** The base name of `dir/name` is `name`, whatever `dir` is. */
  lemma BaseOfChild(dir: string, name: string)
    requires name != [] && Separator !in name
    ensures Base(dir + [Separator] + name) == name
  {
    var p := dir + [Separator] + name;
    assert p[|p| - 1] == name[|name| - 1];
    assert TrimTrailingSeparators(p) == p;
    LastElementAppend(dir + [Separator], name);
    assert LastElement(dir + [Separator]) == [];
  }

  /** A name without separators is its own base name. */
  lemma BaseOfName(name: string)
    requires name != [] && Separator !in name
    ensures Base(name) == name
  {
    assert name[|name| - 1] != Separator;
    LastElementAppend([], name);
    assert [] + name == name;
  }

}
