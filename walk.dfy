/**
 * `dirTreeSecond`, the alternative renderer built on `filepath.Walk`.
 *
 * The traversal itself belongs to the library, so the model takes the
 * visits Walk makes, in its order, as input: the path of each visit, its
 * entry and the error Walk hands to the callback for it. A callback that
 * returns an error ends the walk and Walk returns that error.
 */
module Walk {

  import opened Wrappers
  import opened Entries
  import Strings
  import FilePath
  import Render

  /** One call of the walk callback. */
  datatype Visit = Visit(path: string, info: Info, err: Option<Error>)

  /** What one path component adds to a walked line's indentation. */
  const WalkIndent: string := "│  "

  /**
   * The prefix of a walked line: one `WalkIndent` per separator of the
   * path, then the tee glyph.
   */
  function LinePrefix(path: string): string
  {
    var pathArr := Strings.Split(path, FilePath.Separator);
    var pathLength := |pathArr|;
    if pathLength > 0 then Strings.Repeat(WalkIndent, pathLength - 1) + Render.Tee else Render.Tee
  }

  /** The indentation counts the separators: the guard on the split's length always holds. */
  lemma LinePrefixCountsSeparators(path: string)
    ensures LinePrefix(path) == Strings.Repeat(WalkIndent, Strings.Count(FilePath.Separator, path)) + Render.Tee
  {
    assert |Strings.Split(path, FilePath.Separator)| == Strings.Count(FilePath.Separator, path) + 1;
  }

  /**
   * The callback `dirTreeSecond` hands to Walk: the line it writes, if
   * any, and the error it returns.
   */
  function WalkFunc(path: string, info: Info, err: Option<Error>): (Option<string>, Option<Error>)
  {
    if err.Some? then (None, Some(AccessFailure(path, err.value)))
    else
      var baseName := FilePath.Base(path);
      if baseName in ExcludeNames then (None, None)
      else
        var prefix := LinePrefix(path);
        var (pointName, e) := GetNameWithSize(info);
        if e == None then (Some(prefix + pointName), None) else (None, None)
  }

  /**
   * What the callback does: an incoming error comes back wrapped with its
   * path and nothing is written; an excluded base name writes nothing and
   * returns `nil`; every other path writes one line, indented by its number
   * of separators, and returns `nil`.
   */
  lemma WalkFuncContract(path: string, info: Info, err: Option<Error>)
    ensures err.Some? ==> WalkFunc(path, info, err) == (None, Some(AccessFailure(path, err.value)))
    ensures err.None? && Excluded(FilePath.Base(path)) ==> WalkFunc(path, info, err) == (None, None)
    ensures err.None? && !Excluded(FilePath.Base(path)) ==>
      WalkFunc(path, info, err) == (Some(Strings.Repeat(WalkIndent, Strings.Count(FilePath.Separator, path)) + Render.Tee + Label(info)), None)
  {
    LinePrefixCountsSeparators(path);
  }

  /** The lines a visit writes. */
  function Written(line: Option<string>): seq<string>
  {
    if line.Some? then [line.value] else []
  }

  /**
   * The lines written and the error Walk holds after the callback has run
   * on the first `i` visits; once it returned an error, later visits do
   * not happen.
   */
  function WalkState(visits: seq<Visit>, i: nat): (seq<string>, Option<Error>)
    requires i <= |visits|
  {
    if i == 0 then ([], None)
    else
      var s := WalkState(visits, i - 1);
      if s.1.Some? then s
      else
        var v := visits[i - 1];
        var r := WalkFunc(v.path, v.info, v.err);
        (s.0 + Written(r.0), r.1)
  }

  /** The lines written and the error Walk returns, for callbacks on `visits` in order. */
  function WalkRun(visits: seq<Visit>): (seq<string>, Option<Error>)
  {
    WalkState(visits, |visits|)
  }

  /** The lines of the visits whose base name is not excluded, in visiting order. */
  function ShownWalkLines(visits: seq<Visit>): (r: seq<string>)
    ensures |r| <= |visits|
  {
    if visits == [] then []
    else
      var v := visits[|visits| - 1];
      ShownWalkLines(visits[..|visits| - 1])
        + (if Excluded(FilePath.Base(v.path)) then [] else [LinePrefix(v.path) + Label(v.info)])
  }

  /** Without errors, the walk writes one line per visit that is not excluded, and returns `nil`. */
  lemma {:induction false} WalkWithoutErrors(visits: seq<Visit>, i: nat)
    requires i <= |visits|
    requires forall j :: 0 <= j < i ==> visits[j].err == None
    ensures WalkState(visits, i) == (ShownWalkLines(visits[..i]), None)
  {
    if i > 0 {
      WalkWithoutErrors(visits, i - 1);
      assert visits[..i][..i - 1] == visits[..i - 1];
      var v := visits[i - 1];
      WalkFuncContract(v.path, v.info, v.err);
    }
  }

  /** Once the callback has returned an error, the state no longer changes. */
  lemma {:induction false} WalkStateStops(visits: seq<Visit>, k: nat, i: nat)
    requires k <= i <= |visits| && WalkState(visits, k).1.Some?
    ensures WalkState(visits, i) == WalkState(visits, k)
    decreases i
  {
    if i > k {
      WalkStateStops(visits, k, i - 1);
    }
  }

  /**
   * The first incoming error ends the walk: the lines of the visits before
   * it are written, nothing after it, and the error comes back wrapped with
   * the path it occurred on.
   */
  lemma WalkStopsAtFirstError(visits: seq<Visit>, k: nat)
    requires k < |visits| && visits[k].err.Some?
    requires forall j :: 0 <= j < k ==> visits[j].err == None
    ensures WalkRun(visits) == (ShownWalkLines(visits[..k]), Some(AccessFailure(visits[k].path, visits[k].err.value)))
  {
    WalkWithoutErrors(visits, k);
    var v := visits[k];
    WalkFuncContract(v.path, v.info, v.err);
    var shown := ShownWalkLines(visits[..k]);
    assert Written(None) == [] && shown + [] == shown;
    assert WalkState(visits, k + 1) == (shown, Some(AccessFailure(v.path, v.err.value)));
    WalkStateStops(visits, k + 1, |visits|);
  }

  /** A child's line is indented one step further than its directory's. */
  lemma ChildOneLevelDeeper(dir: string, name: string)
    requires FilePath.Separator !in name
    ensures LinePrefix(dir + [FilePath.Separator] + name) == WalkIndent + LinePrefix(dir)
  {
    LinePrefixCountsSeparators(dir + [FilePath.Separator] + name);
    LinePrefixCountsSeparators(dir);
    var sep := FilePath.Separator;
    var child := dir + [sep] + name;
    var n := Strings.Count(sep, dir);
    Strings.CountAppend(sep, dir + [sep], name);
    Strings.CountAppend(sep, dir, [sep]);
    assert Strings.Count(sep, [sep]) == 1;
    assert Strings.Count(sep, child) == n + 1;
    assert Strings.Repeat(WalkIndent, n + 1) == WalkIndent + Strings.Repeat(WalkIndent, n);
  }

  /** A path whose last component is an excluded name writes nothing and returns `nil`. */
  lemma ExcludedChildWritesNothing(dir: string, name: string, info: Info)
    requires Excluded(name)
    ensures WalkFunc(dir + [FilePath.Separator] + name, info, None) == (None, None)
  {
    ExcludedNameIsComponent(name);
    FilePath.BaseOfChild(dir, name);
  }

  /**
   * Exclusion goes by base name only and does not skip the directory, so
   * an entry inside an excluded directory is still written, two steps
   * deeper than the directory holding the excluded one.
   */
  lemma ExcludedDirectoryStillDescended(dir: string, name: string, child: string, info: Info)
    requires Excluded(name)
    requires child != [] && FilePath.Separator !in child && !Excluded(child)
    ensures WalkFunc(dir + [FilePath.Separator] + name + [FilePath.Separator] + child, info, None)
         == (Some(WalkIndent + WalkIndent + LinePrefix(dir) + Label(info)), None)
  {
    var sep := FilePath.Separator;
    ExcludedNameIsComponent(name);
    var inner := dir + [sep] + name;
    var path := inner + [sep] + child;
    FilePath.BaseOfChild(inner, child);
    ChildOneLevelDeeper(inner, child);
    ChildOneLevelDeeper(dir, name);
    assert LinePrefix(path) == WalkIndent + WalkIndent + LinePrefix(dir);
    assert WalkFunc(path, info, None) == (Some(LinePrefix(path) + Label(info)), None);
  }

  /**
   * `dirTreeSecond`: runs the callback on each visit in order, appending
   * what it writes to `out`, and returns the first error it returns (or
   * `nil`). `printFiles` is never consulted.
   */
  method DirTreeSecond(out: seq<string>, visits: seq<Visit>, printFiles: bool)
    returns (out': seq<string>, err: Option<Error>)
    ensures out' == out + WalkRun(visits).0
    ensures err == WalkRun(visits).1
  {
    out' := out;
    var i := 0;
    while i < |visits|
      invariant 0 <= i <= |visits|
      invariant out' == out + WalkState(visits, i).0
      invariant WalkState(visits, i).1 == None
    {
      var v := visits[i];
      ghost var before := WalkState(visits, i);
      var r := WalkFunc(v.path, v.info, v.err);
      var line, e := r.0, r.1;
      assert WalkState(visits, i + 1) == (before.0 + Written(line), e);
      out' := out' + Written(line);
      i := i + 1;
      if e.Some? {
        WalkStateStops(visits, i, |visits|);
        return out', e;
      }
    }
    return out', None;
  }

}
