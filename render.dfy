/**
 * The recursive renderer `dirTreeRecursive` and its entry point `dirTree`.
 *
 * The filesystem is an abstract listing: a map from a path to the entries
 * `ioutil.ReadDir` returns for it, in the order it returns them; a path with
 * no key reads as an empty listing, because the renderer discards the
 * listing error. The output writer is the sequence of lines written so far,
 * one element per `Fprintf` call, without its trailing newline.
 *
 * The renderer looks a subdirectory up by its bare name, so a listing can
 * make it recurse forever (a directory `x` holding a directory `x`). The
 * model is made total by `fuel`, the number of directory listings it may
 * still read on the way down; `FuelStable` shows that on a listing without
 * such a cycle enough fuel renders the whole tree, and `SelfLoop` that the
 * cycle above grows without bound.
 */
module Render {

  import opened Wrappers
  import opened Entries
  import Strings

  type Listing = map<string, seq<Info>>

  /** `ioutil.ReadDir(path)` with its error ignored. */
  function ReadDir(fs: Listing, path: string): seq<Info>
  {
    if path in fs then fs[path] else []
  }

  /** The tee glyph put before every entry. */
  const Tee: string := "├───"

  /** The corner glyph meant for the last entry of a directory. */
  const Corner: string := "└───"

  /** What a subdirectory's prefix adds to its parent's. */
  const Continuation: string := "|\t"

  /** The prefix added by `d` levels of recursion. */
  function Indent(d: nat): string
  {
    Strings.Repeat(Continuation, d)
  }

  /** The line written for `info` under `prefix`. */
  function EntryLine(prefix: string, info: Info): string
  {
    prefix + Tee + Label(info)
  }

  /** The lines `dirTreeRecursive(out, path, printFiles, prefix)` writes. */
  function RenderDir(fs: Listing, path: string, prefix: string, fuel: nat): seq<string>
    decreases fuel, 0
  {
    if fuel == 0 then [] else RenderEntries(fs, ReadDir(fs, path), prefix, fuel - 1)
  }

  /**
   * A path that cannot be listed writes nothing: the discarded error reads
   * as an empty directory, whatever the prefix and the fuel.
   */
  lemma UnlistedPathWritesNothing(fs: Listing, path: string, prefix: string, fuel: nat)
    requires path !in fs
    ensures RenderDir(fs, path, prefix, fuel) == []
  {
  }

  /** The lines written for one listed entry: nothing when excluded, else its line and its subtree. */
  function EntryLines(fs: Listing, e: Info, prefix: string, fuel: nat): seq<string>
    decreases fuel, 1
  {
    if Excluded(e.name) then []
    else [EntryLine(prefix, e)] + (if e.isDir then RenderDir(fs, e.name, prefix + Continuation, fuel) else [])
  }

  /** The lines written for a listing, entry after entry. */
  function RenderEntries(fs: Listing, entries: seq<Info>, prefix: string, fuel: nat): seq<string>
    decreases fuel, 2, |entries|
  {
    if entries == [] then [] else EntryLines(fs, entries[0], prefix, fuel) + RenderEntries(fs, entries[1..], prefix, fuel)
  }

  /** Rendering a concatenated listing concatenates the renderings: siblings keep listing order. */
  lemma {:induction false} RenderEntriesAppend(fs: Listing, a: seq<Info>, b: seq<Info>, prefix: string, fuel: nat)
    ensures RenderEntries(fs, a + b, prefix, fuel) == RenderEntries(fs, a, prefix, fuel) + RenderEntries(fs, b, prefix, fuel)
    decreases |a|
  {
    if a == [] {
      assert a + b == b;
    } else {
      var head := EntryLines(fs, a[0], prefix, fuel);
      assert (a + b)[0] == a[0];
      assert (a + b)[1..] == a[1..] + b;
      calc {
        RenderEntries(fs, a + b, prefix, fuel);
        head + RenderEntries(fs, a[1..] + b, prefix, fuel);
        { RenderEntriesAppend(fs, a[1..], b, prefix, fuel); }
        head + (RenderEntries(fs, a[1..], prefix, fuel) + RenderEntries(fs, b, prefix, fuel));
        (head + RenderEntries(fs, a[1..], prefix, fuel)) + RenderEntries(fs, b, prefix, fuel);
      }
    }
  }

  /** A listing that starts with `e` renders `e` first. */
  lemma RenderEntriesCons(fs: Listing, e: Info, rest: seq<Info>, prefix: string, fuel: nat)
    ensures RenderEntries(fs, [e] + rest, prefix, fuel) == EntryLines(fs, e, prefix, fuel) + RenderEntries(fs, rest, prefix, fuel)
  {
    assert ([e] + rest)[0] == e;
    assert ([e] + rest)[1..] == rest;
  }

  /** The listing up to and including entry `i` renders as the listing before it, then entry `i`. */
  lemma RenderEntriesSnoc(fs: Listing, entries: seq<Info>, i: nat, prefix: string, fuel: nat)
    requires i < |entries|
    ensures RenderEntries(fs, entries[..i + 1], prefix, fuel)
         == RenderEntries(fs, entries[..i], prefix, fuel) + EntryLines(fs, entries[i], prefix, fuel)
  {
    assert entries[..i + 1] == entries[..i] + [entries[i]];
    RenderEntriesAppend(fs, entries[..i], [entries[i]], prefix, fuel);
    RenderEntriesCons(fs, entries[i], [], prefix, fuel);
    assert [entries[i]] + [] == [entries[i]];
  }

  /** A listing split around entry `i`: the entries before it, entry `i`, the entries after it. */
  lemma RenderEntriesAround(fs: Listing, entries: seq<Info>, i: nat, prefix: string, fuel: nat)
    requires i < |entries|
    ensures RenderEntries(fs, entries, prefix, fuel)
         == RenderEntries(fs, entries[..i], prefix, fuel)
          + (EntryLines(fs, entries[i], prefix, fuel) + RenderEntries(fs, entries[i + 1..], prefix, fuel))
  {
    assert entries == entries[..i] + ([entries[i]] + entries[i + 1..]);
    RenderEntriesAppend(fs, entries[..i], [entries[i]] + entries[i + 1..], prefix, fuel);
    RenderEntriesCons(fs, entries[i], entries[i + 1..], prefix, fuel);
  }

  /**
   * Pre-order and listing order: the output for a listing is that of the
   * entries before `i`, then the line of entry `i` immediately followed by
   * everything beneath it, then the entries after `i`.
   */
  lemma PreOrder(fs: Listing, entries: seq<Info>, i: nat, prefix: string, fuel: nat)
    requires i < |entries| && !Excluded(entries[i].name)
    ensures RenderEntries(fs, entries, prefix, fuel)
         == RenderEntries(fs, entries[..i], prefix, fuel)
          + [EntryLine(prefix, entries[i])]
          + (if entries[i].isDir then RenderDir(fs, entries[i].name, prefix + Continuation, fuel) else [])
          + RenderEntries(fs, entries[i + 1..], prefix, fuel)
  {
    RenderEntriesAround(fs, entries, i, prefix, fuel);
  }

  /**
   * An excluded entry contributes nothing, its subtree included: dropping
   * it from the listing leaves the output unchanged.
   */
  lemma ExcludedContributesNothing(fs: Listing, entries: seq<Info>, i: nat, prefix: string, fuel: nat)
    requires i < |entries| && Excluded(entries[i].name)
    ensures RenderEntries(fs, entries, prefix, fuel) == RenderEntries(fs, entries[..i] + entries[i + 1..], prefix, fuel)
  {
    RenderEntriesAround(fs, entries, i, prefix, fuel);
    assert EntryLines(fs, entries[i], prefix, fuel) == [];
    RenderEntriesAppend(fs, entries[..i], entries[i + 1..], prefix, fuel);
  }

  /** `line` is the line of `e` at recursion depth `d` below `prefix`. */
  predicate IsLineAt(line: string, prefix: string, d: nat, e: Info)
  {
    line == prefix + Indent(d) + Tee + Label(e)
  }

  /** Some directory listing of `fs` holds `e`. */
  ghost predicate Listed(fs: Listing, e: Info)
  {
    exists p :: p in fs && e in fs[p]
  }

  /**
   * `line` is the line of a listed, non-excluded entry at a depth below
   * `bound`, always with the tee glyph.
   */
  ghost predicate Shaped(fs: Listing, line: string, prefix: string, bound: nat)
  {
    exists d: nat, e: Info :: d < bound && !Excluded(e.name) && Listed(fs, e) && IsLineAt(line, prefix, d, e)
  }

  ghost predicate AllShaped(fs: Listing, lines: seq<string>, prefix: string, bound: nat)
  {
    forall i :: 0 <= i < |lines| ==> Shaped(fs, lines[i], prefix, bound)
  }

  /** Lines shaped below a child's prefix are shaped one level deeper below the parent's. */
  lemma AllShapedDeeper(fs: Listing, lines: seq<string>, prefix: string, bound: nat)
    requires AllShaped(fs, lines, prefix + Continuation, bound)
    ensures AllShaped(fs, lines, prefix, bound + 1)
  {
    forall i | 0 <= i < |lines|
      ensures Shaped(fs, lines[i], prefix, bound + 1)
    {
      assert Shaped(fs, lines[i], prefix + Continuation, bound);
      var d: nat, e: Info :| d < bound && !Excluded(e.name) && Listed(fs, e) && IsLineAt(lines[i], prefix + Continuation, d, e);
      assert Indent(d + 1) == Continuation + Indent(d);
      assert IsLineAt(lines[i], prefix, d + 1, e);
    }
  }

  /**
   * Every line a directory renders is `prefix`, then `d` copies of "|\t"
   * for its depth `d` below the directory, then the tee glyph, then the
   * label of a non-excluded entry that some listing holds. The corner
   * glyph never appears.
   */
  lemma {:induction false} RenderDirShape(fs: Listing, path: string, prefix: string, fuel: nat)
    ensures AllShaped(fs, RenderDir(fs, path, prefix, fuel), prefix, fuel)
    decreases fuel, 0
  {
    if fuel > 0 {
      var entries := ReadDir(fs, path);
      assert forall i :: 0 <= i < |entries| ==> Listed(fs, entries[i]) by {
        forall i | 0 <= i < |entries|
          ensures Listed(fs, entries[i])
        {
          assert path in fs && entries[i] in fs[path];
        }
      }
      RenderEntriesShape(fs, entries, prefix, fuel - 1);
    }
  }

  lemma {:induction false} EntryLinesShape(fs: Listing, e: Info, prefix: string, fuel: nat)
    requires Listed(fs, e)
    ensures AllShaped(fs, EntryLines(fs, e, prefix, fuel), prefix, fuel + 1)
    decreases fuel, 1
  {
    if !Excluded(e.name) {
      var own := EntryLine(prefix, e);
      assert IsLineAt(own, prefix, 0, e) by {
        assert Indent(0) == [];
        assert prefix + Indent(0) == prefix;
      }
      var below := if e.isDir then RenderDir(fs, e.name, prefix + Continuation, fuel) else [];
      if e.isDir {
        RenderDirShape(fs, e.name, prefix + Continuation, fuel);
        AllShapedDeeper(fs, below, prefix, fuel);
      }
      var lines := [own] + below;
      forall i | 0 <= i < |lines|
        ensures Shaped(fs, lines[i], prefix, fuel + 1)
      {
        if i > 0 {
          assert lines[i] == below[i - 1];
        }
      }
    }
  }

  lemma {:induction false} RenderEntriesShape(fs: Listing, entries: seq<Info>, prefix: string, fuel: nat)
    requires forall i :: 0 <= i < |entries| ==> Listed(fs, entries[i])
    ensures AllShaped(fs, RenderEntries(fs, entries, prefix, fuel), prefix, fuel + 1)
    decreases fuel, 2, |entries|
  {
    if entries != [] {
      EntryLinesShape(fs, entries[0], prefix, fuel);
      RenderEntriesShape(fs, entries[1..], prefix, fuel);
      var a := EntryLines(fs, entries[0], prefix, fuel);
      var b := RenderEntries(fs, entries[1..], prefix, fuel);
      forall i | 0 <= i < |a + b|
        ensures Shaped(fs, (a + b)[i], prefix, fuel + 1)
      {
        if i < |a| {
          assert (a + b)[i] == a[i];
        } else {
          assert (a + b)[i] == b[i - |a|];
        }
      }
    }
  }

  /** The lines among `lines` that carry a glyph right after `k` prefix characters. */
  function LevelLines(lines: seq<string>, k: nat): (r: seq<string>)
    ensures |r| <= |lines|
  {
    if lines == [] then []
    else (if k < |lines[0]| && lines[0][k] == Tee[0] then [lines[0]] else []) + LevelLines(lines[1..], k)
  }

  lemma {:induction false} LevelLinesAppend(a: seq<string>, b: seq<string>, k: nat)
    ensures LevelLines(a + b, k) == LevelLines(a, k) + LevelLines(b, k)
    decreases |a|
  {
    if a == [] {
      assert a + b == b;
    } else {
      var head := if k < |a[0]| && a[0][k] == Tee[0] then [a[0]] else [];
      assert (a + b)[0] == a[0];
      assert (a + b)[1..] == a[1..] + b;
      calc {
        LevelLines(a + b, k);
        head + LevelLines(a[1..] + b, k);
        { LevelLinesAppend(a[1..], b, k); }
        head + (LevelLines(a[1..], k) + LevelLines(b, k));
        (head + LevelLines(a[1..], k)) + LevelLines(b, k);
      }
    }
  }

  /** Lines of a subtree carry "|" where their parent level's lines carry the glyph. */
  lemma {:induction false} LevelLinesOfSubtree(fs: Listing, lines: seq<string>, prefix: string, bound: nat)
    requires AllShaped(fs, lines, prefix + Continuation, bound)
    ensures LevelLines(lines, |prefix|) == []
    decreases |lines|
  {
    if lines != [] {
      assert Shaped(fs, lines[0], prefix + Continuation, bound);
      var d: nat, e: Info :| d < bound && !Excluded(e.name) && Listed(fs, e) && IsLineAt(lines[0], prefix + Continuation, d, e);
      assert lines[0] == prefix + (Continuation + (Indent(d) + Tee + Label(e)));
      assert lines[0][|prefix|] == Continuation[0];
      assert AllShaped(fs, lines[1..], prefix + Continuation, bound) by {
        forall i | 0 <= i < |lines[1..]|
          ensures Shaped(fs, lines[1..][i], prefix + Continuation, bound)
        {
          assert lines[1..][i] == lines[i + 1];
        }
      }
      LevelLinesOfSubtree(fs, lines[1..], prefix, bound);
    }
  }

  /** The lines a listing's shown entries get under `prefix`, in listing order. */
  function ShownLines(entries: seq<Info>, prefix: string): (r: seq<string>)
    ensures |r| <= |entries|
  {
    if entries == [] then []
    else (if Excluded(entries[0].name) then [] else [EntryLine(prefix, entries[0])]) + ShownLines(entries[1..], prefix)
  }

  /** Of an entry's lines, only its own line sits at the entry's level. */
  lemma LevelLinesOfEntry(fs: Listing, e: Info, prefix: string, fuel: nat)
    ensures LevelLines(EntryLines(fs, e, prefix, fuel), |prefix|) == (if Excluded(e.name) then [] else [EntryLine(prefix, e)])
  {
    if !Excluded(e.name) {
      var own := EntryLine(prefix, e);
      var below := if e.isDir then RenderDir(fs, e.name, prefix + Continuation, fuel) else [];
      LevelLinesAppend([own], below, |prefix|);
      assert own[|prefix|] == Tee[0];
      if e.isDir {
        RenderDirShape(fs, e.name, prefix + Continuation, fuel);
      }
      LevelLinesOfSubtree(fs, below, prefix, fuel);
    }
  }

  /**
   * One line per shown entry at its own level: the lines of a listing that
   * carry a glyph right after `prefix` are exactly the tee lines of its
   * non-excluded entries, files and directories alike, in listing order.
   */
  lemma {:induction false} OneLinePerShownEntry(fs: Listing, entries: seq<Info>, prefix: string, fuel: nat)
    ensures LevelLines(RenderEntries(fs, entries, prefix, fuel), |prefix|) == ShownLines(entries, prefix)
    decreases |entries|
  {
    if entries != [] {
      var rest := RenderEntries(fs, entries[1..], prefix, fuel);
      LevelLinesAppend(EntryLines(fs, entries[0], prefix, fuel), rest, |prefix|);
      LevelLinesOfEntry(fs, entries[0], prefix, fuel);
      OneLinePerShownEntry(fs, entries[1..], prefix, fuel);
    }
  }

  /** Every visible directory of `fs` lies strictly lower in `height` than the directory listing it. */
  ghost predicate Ranked(fs: Listing, height: map<string, nat>)
  {
    forall p | p in fs :: p in height &&
      forall i | 0 <= i < |fs[p]| ::
        fs[p][i].isDir && !Excluded(fs[p][i].name) && fs[p][i].name in fs ==>
          fs[p][i].name in height && height[fs[p][i].name] < height[p]
  }

  /** On a ranked listing, any fuel above a directory's height renders the same lines. */
  lemma {:induction false} FuelStable(fs: Listing, height: map<string, nat>, path: string, prefix: string, f1: nat, f2: nat)
    requires Ranked(fs, height)
    requires path in fs ==> path in height && height[path] < f1 && height[path] < f2
    ensures RenderDir(fs, path, prefix, f1) == RenderDir(fs, path, prefix, f2)
    decreases f1, 0
  {
    if path in fs {
      EntriesFuelStable(fs, height, fs[path], height[path], prefix, f1 - 1, f2 - 1);
    }
  }

  lemma {:induction false} EntriesFuelStable(fs: Listing, height: map<string, nat>, entries: seq<Info>, h: nat, prefix: string, f1: nat, f2: nat)
    requires Ranked(fs, height)
    requires h <= f1 && h <= f2
    requires forall i | 0 <= i < |entries| ::
      entries[i].isDir && !Excluded(entries[i].name) && entries[i].name in fs ==>
        entries[i].name in height && height[entries[i].name] < h
    ensures RenderEntries(fs, entries, prefix, f1) == RenderEntries(fs, entries, prefix, f2)
    decreases f1, 2, |entries|
  {
    if entries != [] {
      var e := entries[0];
      if !Excluded(e.name) && e.isDir {
        FuelStable(fs, height, e.name, prefix + Continuation, f1, f2);
      }
      EntriesFuelStable(fs, height, entries[1..], h, prefix, f1, f2);
    }
  }

  /** A directory `x` that lists a directory `x`. */
  const SelfListing: Listing := map["x" := [Info("x", true, 0)]]

  /**
   * The renderer never finishes on `SelfListing`: with `fuel` it writes
   * `fuel` lines, one per level, each one level deeper than the last.
   */
  lemma {:induction false} SelfLoop(prefix: string, fuel: nat)
    ensures |RenderDir(SelfListing, "x", prefix, fuel)| == fuel
    ensures forall k :: 0 <= k < fuel ==> RenderDir(SelfListing, "x", prefix, fuel)[k] == prefix + Indent(k) + Tee + "x"
    decreases fuel
  {
    if fuel > 0 {
      var e := Info("x", true, 0);
      var below := RenderDir(SelfListing, "x", prefix + Continuation, fuel - 1);
      SelfLoop(prefix + Continuation, fuel - 1);
      assert ReadDir(SelfListing, "x") == [e];
      assert EntryLines(SelfListing, e, prefix, fuel - 1) == [EntryLine(prefix, e)] + below;
      assert RenderEntries(SelfListing, [e], prefix, fuel - 1) == EntryLines(SelfListing, e, prefix, fuel - 1) + RenderEntries(SelfListing, [], prefix, fuel - 1);
      assert RenderDir(SelfListing, "x", prefix, fuel) == [EntryLine(prefix, e)] + below;
      forall k | 0 <= k < fuel
        ensures RenderDir(SelfListing, "x", prefix, fuel)[k] == prefix + Indent(k) + Tee + "x"
      {
        if k == 0 {
          assert Indent(0) == [];
        } else {
          assert Indent(k) == Continuation + Indent(k - 1);
        }
      }
    }
  }

  /**
   * A subdirectory is looked up by its bare name, not by its path below the
   * root: the contents listed under "root/sub" are never shown.
   */
  lemma BareNameLookup()
    ensures RenderDir(map["root" := [Info("sub", true, 0)], "root/sub" := [Info("inner.txt", false, 10)]], "root", "", 3)
         == [Tee + "sub"]
  {
    var fs := map["root" := [Info("sub", true, 0)], "root/sub" := [Info("inner.txt", false, 10)]];
    assert ReadDir(fs, "sub") == [];
    assert EntryLine("", Info("sub", true, 0)) == Tee + "sub";
  }

  /**
   * `dirTreeRecursive`: appends to `out` the lines of every non-excluded
   * entry of `path`'s listing, each followed by its subtree when it is a
   * directory, and always returns `nil`. `printFiles` is passed down and
   * never consulted.
   */
  method DirTreeRecursive(out: seq<string>, fs: Listing, path: string, printFiles: bool, prefix: string, fuel: nat)
    returns (out': seq<string>, err: Option<Error>)
    ensures out' == out + RenderDir(fs, path, prefix, fuel)
    ensures err == None
    decreases fuel
  {
    out' := out;
    if fuel == 0 {
      return out', None;
    }
    var curprefix := prefix;
    var dirContent := ReadDir(fs, path);
    var linePrefix: string;
    for idx := 0 to |dirContent|
      invariant out' == out + RenderEntries(fs, dirContent[..idx], curprefix, fuel - 1)
    {
      var flInfo := dirContent[idx];
      RenderEntriesSnoc(fs, dirContent, idx, curprefix, fuel - 1);
      ghost var done := out';
      linePrefix := curprefix + Tee;
      if idx == |dirContent| {
        linePrefix := curprefix + Corner;
      }
      if flInfo.name in ExcludeNames {
        assert EntryLines(fs, flInfo, curprefix, fuel - 1) == [];
        continue;
      }
      var (nm, _) := GetNameWithSize(flInfo);
      assert linePrefix + nm == EntryLine(curprefix, flInfo);
      out' := out' + [linePrefix + nm];
      if flInfo.isDir {
        var prefixToRecursive := curprefix + Continuation;
        var written, _ := DirTreeRecursive(out', fs, flInfo.name, printFiles, prefixToRecursive, fuel - 1);
        out' := written;
        assert out' == done + ([EntryLine(curprefix, flInfo)] + RenderDir(fs, flInfo.name, prefixToRecursive, fuel - 1));
      } else {
        assert out' == done + ([EntryLine(curprefix, flInfo)] + []);
      }
    }
    assert dirContent[..|dirContent|] == dirContent;
    return out', None;
  }

  /** `dirTree`: renders `path` from an empty prefix and always returns `nil`. */
  method DirTree(out: seq<string>, fs: Listing, path: string, printFiles: bool, fuel: nat)
    returns (out': seq<string>, err: Option<Error>)
    ensures out' == out + RenderDir(fs, path, "", fuel)
    ensures err == None
  {
    var e: Option<Error>;
    out', e := DirTreeRecursive(out, fs, path, printFiles, "", fuel);
    return out', None;
  }

}
