/** The index in terms of paths, documents and numbers: what goes, what stays, and what is emitted. */
module ReindexPaths {
  import opened Basics
  import opened Reindex

  // ----- which paths go -----

  /** The path is the root, or the root continued by a slash. */
  predicate Under(root: string, path: string) {
    path == root || (|path| > |root| && path[..|root|] == root && path[|root|] == '/')
  }

  lemma ManagedIsUnder(roots: seq<string>, path: string)
    ensures ManagedBy(roots, path) <==> exists i | 0 <= i < |roots| :: Under(roots[i], path)
  {
    forall i | 0 <= i < |roots| ensures path == roots[i] || roots[i] + "/" <= path <==> Under(roots[i], path) {
      SlashBehind(roots[i], path);
    }
  }

  lemma SlashBehind(root: string, path: string)
    ensures path == root || root + "/" <= path <==> Under(root, path)
  {
    if root + "/" <= path {
      assert path[..|root|] == (root + "/")[..|root|] == root && path[|root|] == (root + "/")[|root|];
    }
    if Under(root, path) && path != root {
      assert path[..|root| + 1] == path[..|root|] + [path[|root|]];
    }
  }

  lemma {:induction false} WalkedAre(roots: seq<Root>, path: string)
    ensures (exists i | 0 <= i < |Walked(roots)| :: Under(Walked(roots)[i], path)) <==>
      exists i | 0 <= i < |roots| :: roots[i].files.Some? && Under(roots[i].path, path)
  {
    if roots != [] {
      var last := |roots| - 1;
      var init, root, before := roots[..last], roots[last], Walked(roots[..last]);
      hide Under;
      WalkedAre(init, path);
      assert Walked(roots) == if root.files.Some? then before + [root.path] else before + [];
      assert forall i | 0 <= i < |before| :: Walked(roots)[i] == before[i];
      assert forall i | 0 <= i < last :: init[i] == roots[i];
      if root.files.Some? {
        assert Walked(roots)[|before|] == root.path;
      }
    }
  }

  ghost predicate UnderWalked(roots: seq<Root>, path: string) {
    exists i | 0 <= i < |roots| :: roots[i].files.Some? && Under(roots[i].path, path)
  }

  /**
   * An indexed path goes exactly when it is not among the documents and some root that is a directory is the path
   * or is continued by it with a slash. A path that was not indexed is there afterwards exactly when it is a document.
   */
  lemma PathGoesExactly(log: seq<Photon>, docs: seq<Document>, roots: seq<Root>, size: nat, hash: string -> string,
                        tombs: seq<Photon>, path: string)
    requires size > 0
    requires var previous := Fold(map[], log); Buries(tombs, previous, Absent(previous, Walked(roots), Ids(docs)))
    ensures var previous := Fold(map[], log);
      var m := Fold(map[], log + Emitted(previous, docs, size, hash) + tombs + [Summary()]);
      path in m <==>
        (exists i | 0 <= i < |docs| :: docs[i].id == path) || (path in previous && !UnderWalked(roots, path))
  {
    hide Fold, Emitted, Buries, ManagedBy, Updated, Under, Walked;
    ExtendedFold(log, docs, Walked(roots), size, hash, tombs);
    UpdatedAt(Fold(map[], log), docs, hash, path);
    ManagedIsUnder(Walked(roots), path);
    WalkedAre(roots, path);
  }

  /** What is buried: one tombstone names each indexed path under a walked root that is no document any more. */
  lemma BuriedPaths(previous: Revisions, roots: seq<string>, current: set<string>, tombs: seq<Photon>, path: string)
    requires Buries(tombs, previous, Absent(previous, roots, current))
    ensures (exists i | 0 <= i < |tombs| :: tombs[i].path == Some(path)) <==>
      path in previous && path !in current && exists i | 0 <= i < |roots| :: Under(roots[i], path)
    ensures forall i | 0 <= i < |tombs| && tombs[i].path == Some(path) ::
      path in previous && tombs[i].revision == Some(previous[path]) && tombs[i].kind == "rag.document-tombstoned"
  {
    hide ManagedBy, Under;
    ManagedIsUnder(roots, path);
    var paths := Absent(previous, roots, current);
    assert path in paths <==> path in previous && ManagedBy(roots, path) && path !in current;
    if path in paths {
      var i :| 0 <= i < |tombs| && tombs[i].path == Some(path);
    }
    if i :| 0 <= i < |tombs| && tombs[i].path == Some(path) {
      assert tombs[i].path.value in paths;
    }
  }

  function Indexed(path: string): Photon {
    Photon("rag.document-indexed", Some(path), Some("1"), 0, "")
  }

  /** With the root `w/src` walked and empty, `w/src/a` is absent and `w/src2/a`, in a sibling directory, is not. */
  lemma SiblingStays()
    ensures var previous := Fold(map[], [Indexed("w/src/a"), Indexed("w/src2/a")]);
      && previous.Keys == {"w/src/a", "w/src2/a"}
      && Absent(previous, Walked([Root("w/src", Some([]))]), {}) == {"w/src/a"}
  {
    var a, b := Indexed("w/src/a"), Indexed("w/src2/a");
    assert [a, b][..1] == [a] && [a][..0] == [];
    assert Fold(map[], [a]) == Apply(Fold(map[], []), a);
    assert Fold(map[], [a, b]) == Apply(Fold(map[], [a]), b);
    var previous := Fold(map[], [a, b]);
    assert "w/src/a" != "w/src2/a" by { assert "w/src/a"[5] != "w/src2/a"[5]; }
    var roots := [Root("w/src", Some([]))];
    assert roots[..0] == [] && Walked(roots) == [] + ["w/src"] == ["w/src"];
    ManagedIsUnder(["w/src"], "w/src/a");
    ManagedIsUnder(["w/src"], "w/src2/a");
    assert Under("w/src", "w/src/a") && !Under("w/src", "w/src2/a");
    assert ["w/src"][0] == "w/src";
    hide ManagedBy, Under;
  }

  // ----- what is emitted -----

  /** The first indexing of a short document. */
  lemma FirstIndexing(hash: string -> string)
    ensures Emitted(map[], [Document("a", "xy")], 256, hash)
      == [Photon("rag.document-indexed", Some("a"), Some(hash("xy")), 0, ""),
          Photon("rag.chunk-indexed", Some("a"), Some(hash("xy")), 0, "xy")]
    ensures Summary() == Photon("rag.index-rebuilt", None, None, 0, "")
  {
    var docs := [Document("a", "xy")];
    assert docs[..0] == [] && "xy"[0..2] == "xy";
    assert Chunks("a", hash("xy"), "xy", 256, 256) == [];
    assert Emitted(map[], docs, 256, hash) == [] + Indexing(map[], docs[0], 256, hash);
  }

  /** As many chunks as it takes, each full but the last; 2000 characters each unless 256 to 16384 are asked for. */
  lemma {:induction false} ChunkCount(id: string, revision: string, content: string, offset: nat, size: nat)
    requires size > 0 && offset <= |content|
    ensures var ps := Chunks(id, revision, content, offset, size);
      && (|ps| == 0 <==> offset == |content|)
      && (offset < |content| ==> offset + (|ps| - 1) * size < |content| <= offset + |ps| * size)
    decreases |content| - offset
  {
    if offset + size < |content| {
      ChunkCount(id, revision, content, offset + size, size);
      var n := |Chunks(id, revision, content, offset + size, size)|;
      assert n > 0 && |Chunks(id, revision, content, offset, size)| == n + 1;
      assert offset + size + (n - 1) * size == offset + n * size;
      assert offset + size + n * size == offset + (n + 1) * size;
    } else if offset < |content| {
      assert Chunks(id, revision, content, offset + size, size) == [];
    }
  }

  /** A document that asks for no size of chunks, or for one out of range. */
  lemma ChunkSizes(n: int)
    ensures Clamp(None) == 2000
    ensures n <= 256 ==> Clamp(Some(n)) == 256
    ensures 256 <= n <= 16384 ==> Clamp(Some(n)) == n
    ensures n >= 16384 ==> Clamp(Some(n)) == 16384
  {
  }

  // ----- what is refused -----

  /** A document handed in needs an id, a content and, if it names a source, one of three. */
  lemma JudgedByFields(s: Supplied)
    ensures var named := s.identifier.Some? && s.identifier.value != "" && s.content.Some?;
      var allowed := s.source.None? || s.source.value in {"cove", "chora", "external"};
      && (Verdict(s) == Refused(Malformed) <==> !named)
      && (Verdict(s) == Refused(SourceNotAllowed) <==> named && !allowed)
      && (named && allowed ==> Verdict(s) == Fine(Document(s.identifier.value, s.content.value)))
  {
  }
}
