/**
 * The source-path rewrite applied to the source maps of the development
 * build: a path is split on `/`, its last piece is kept, and `./` is put in
 * front, so that each map refers to its source file as a sibling.
 */
module SourceMap {

  /**
   * JavaScript's `split('/')`: the pieces between slashes, in order.  The
   * empty path gives one empty piece, and a leading or trailing slash gives
   * an empty piece at that end.  The last piece is the text after the last
   * slash, or the whole path when it has none.
   */
  function Split(p: string): (parts: seq<string>)
    ensures |parts| >= 1
  {
    if p == [] then [[]]
    else
      var c, r := p[|p| - 1], Split(p[..|p| - 1]);
      if c == '/' then r + [[]]
      else r[..|r| - 1] + [r[|r| - 1] + [c]]
  }

  /** No piece holds a slash. */
  lemma {:induction false} SplitPiecesHaveNoSlash(p: string)
    ensures forall k :: 0 <= k < |Split(p)| ==> '/' !in Split(p)[k]
  {
    if p != [] {
      var c, front := p[|p| - 1], p[..|p| - 1];
      var r := Split(front);
      SplitPiecesHaveNoSlash(front);
      if c != '/' {
        var last := r[|r| - 1];
        assert '/' !in last + [c];
        assert forall k :: 0 <= k < |r| - 1 ==> Split(p)[k] == r[k];
      }
    }
  }

  /** The last piece is the end of the path after its last slash, or the whole path without one. */
  lemma {:induction false} SplitLastPiece(p: string)
    ensures var parts := Split(p);
            var last := parts[|parts| - 1];
            |last| <= |p| && last == p[|p| - |last|..] && (|last| < |p| ==> p[|p| - |last| - 1] == '/')
  {
    if p != [] {
      var c, front := p[|p| - 1], p[..|p| - 1];
      var r := Split(front);
      SplitLastPiece(front);
      var last := r[|r| - 1];
      if c != '/' {
        assert Split(p)[|Split(p)| - 1] == last + [c];
        assert front[|front| - |last|..] + [c] == p[|p| - 1 - |last|..];
        if |last| < |front| {
          assert p[|p| - |last| - 2] == front[|front| - |last| - 1];
        }
      }
    }
  }

  /** JavaScript's `join('/')`: the pieces with one slash between neighbours. */
  function Join(parts: seq<string>): string
    requires |parts| >= 1
  {
    if |parts| == 1 then parts[0] else Join(parts[..|parts| - 1]) + "/" + parts[|parts| - 1]
  }

  /** Splitting loses nothing: joining the pieces gives back the path. */
  lemma {:induction false} JoinSplit(p: string)
    ensures Join(Split(p)) == p
  {
    if p != [] {
      var c, front := p[|p| - 1], p[..|p| - 1];
      var r := Split(front);
      JoinSplit(front);
      assert p == front + [c];
      if c == '/' {
        JoinEmptyLast(r);
      } else {
        JoinExtendLast(r, c);
      }
    }
  }

  /** Adding an empty last piece adds a trailing slash. */
  lemma JoinEmptyLast(r: seq<string>)
    requires |r| >= 1
    ensures Join(r + [[]]) == Join(r) + "/"
  {
  }

  /** Extending the last piece by a character extends the joined path by it. */
  lemma JoinExtendLast(r: seq<string>, c: char)
    requires |r| >= 1
    ensures Join(r[..|r| - 1] + [r[|r| - 1] + [c]]) == Join(r) + [c]
  {
    var init := r[..|r| - 1];
    var r2 := init + [r[|r| - 1] + [c]];
    if |r| > 1 {
      assert r2[..|r2| - 1] == init;
    }
  }

  /** A path without slashes is one piece. */
  lemma {:induction false} SplitFileName(name: string)
    requires '/' !in name
    ensures Split(name) == [name]
  {
    if name != [] {
      var front := name[..|name| - 1];
      assert forall x :: x in front ==> x in name;
      SplitFileName(front);
      assert name[|name| - 1] in name;
      assert front + [name[|name| - 1]] == name;
    }
  }

  /** Appending a slash and a name without slashes appends one piece. */
  lemma {:induction false} SplitAppendPiece(q: string, name: string)
    requires '/' !in name
    ensures Split(q + "/" + name) == Split(q) + [name]
  {
    var p := q + "/" + name;
    if name == [] {
      assert p[..|p| - 1] == q;
    } else {
      var front := name[..|name| - 1];
      var c := name[|name| - 1];
      assert forall x :: x in front ==> x in name;
      assert c in name;
      SplitAppendPiece(q, front);
      assert p[..|p| - 1] == q + "/" + front;
      assert front + [c] == name;
      var r := Split(q) + [front];
      assert r[..|r| - 1] == Split(q);
    }
  }

  /** Joining pieces without slashes and splitting again gives back the same pieces. */
  lemma {:induction false} SplitJoin(parts: seq<string>)
    requires |parts| >= 1
    requires forall k :: 0 <= k < |parts| ==> '/' !in parts[k]
    ensures Split(Join(parts)) == parts
  {
    var n := |parts|;
    if n == 1 {
      SplitFileName(parts[0]);
    } else {
      var init, last := parts[..n - 1], parts[n - 1];
      assert forall k :: 0 <= k < |init| ==> '/' !in init[k] by {
        forall k | 0 <= k < |init| ensures '/' !in init[k] {
          assert init[k] == parts[k];
        }
      }
      assert Join(parts) == Join(init) + "/" + last;
      SplitJoin(init);
      SplitAppendPiece(Join(init), last);
      assert init + [last] == parts;
    }
  }

  /**
   * The `mapSources` callback: `./` followed by the last piece of the path.
   * What follows `./` holds no slash and ends the original path, right
   * after its last slash when it has one.
   */
  function MapSource(sourcePath: string): (r: string)
    ensures |r| >= 2 && r[..2] == "./"
    ensures var name := r[2..];
            && '/' !in name
            && |name| <= |sourcePath|
            && name == sourcePath[|sourcePath| - |name|..]
            && (|name| < |sourcePath| ==> sourcePath[|sourcePath| - |name| - 1] == '/')
  {
    var parts := Split(sourcePath);
    SplitPiecesHaveNoSlash(sourcePath);
    SplitLastPiece(sourcePath);
    var r := "./" + parts[|parts| - 1];
    assert r[2..] == parts[|parts| - 1];
    r
  }

  /** A path that is just a file name is kept whole, behind `./`. */
  lemma MapSourceOfFileName(name: string)
    requires '/' !in name
    ensures MapSource(name) == "./" + name
  {
  }

  /** The name kept is the last piece of the path whatever directories lead to it. */
  lemma MapSourceIgnoresDirectories(dir: string, name: string)
    requires '/' !in name
    ensures MapSource(dir + "/" + name) == "./" + name
  {
    SplitAppendPiece(dir, name);
  }

  /** Rewriting a rewritten path changes nothing more. */
  lemma MapSourceIdempotent(sourcePath: string)
    ensures MapSource(MapSource(sourcePath)) == MapSource(sourcePath)
  {
    var r := MapSource(sourcePath);
    assert r == "." + "/" + r[2..];
    MapSourceIgnoresDirectories(".", r[2..]);
  }
}
