/** The incremental index of documents kept in a log, and its agreement with a rebuild. */
module Reindex {
  import opened Basics

  /** A photon as the index reads it; chunk photons also carry their offset and text. */
  datatype Photon = Photon(kind: string, path: Option<string>, revision: Option<string>, offset: nat, text: string)

  const INDEXED := "rag.document-indexed"
  const TOMBSTONED := "rag.document-tombstoned"
  const CHUNK := "rag.chunk-indexed"
  const REBUILT := "rag.index-rebuilt"

  datatype Document = Document(id: string, content: string)

  /** A document handed in with the request; absent fields are absent or of the wrong type. */
  datatype Supplied = Supplied(identifier: Option<string>, content: Option<string>, source: Option<string>)

  /** A configured root: its canonical path and, if it is a directory, the files of its walk. */
  datatype Root = Root(path: string, files: Option<seq<Document>>)

  /** A parameter of the act that must be an array. */
  datatype Given<+T> = Missing | Mistyped | Present(items: seq<T>)

  datatype Outcome =
    | Rebuilt(documents: nat, chunks: nat, updated: nat)
    | RootsMistyped | DocumentsMistyped | Malformed | SourceNotAllowed

  type Revisions = map<string, string>

  // ----- the fold over the log -----

  function Apply(m: Revisions, p: Photon): Revisions {
    if p.path.None? || p.revision.None? then m
    else if p.kind == INDEXED then m[p.path.value := p.revision.value]
    else if p.kind == TOMBSTONED then m - {p.path.value}
    else m
  }

  function Fold(m: Revisions, log: seq<Photon>): Revisions {
    if log == [] then m else Apply(Fold(m, log[..|log| - 1]), log[|log| - 1])
  }

  lemma {:induction false} FoldAppend(m: Revisions, a: seq<Photon>, b: seq<Photon>)
    ensures Fold(m, a + b) == Fold(Fold(m, a), b)
    decreases |b|
  {
    if b == [] {
      assert a + b == a;
    } else {
      assert (a + b)[..|a + b| - 1] == a + b[..|b| - 1];
      FoldAppend(m, a, b[..|b| - 1]);
    }
  }

  // ----- what is emitted -----

  function Clamp(requested: Option<int>): (size: nat)
    ensures 256 <= size <= 16384
  {
    var n := if requested.None? then 2000 else requested.value;
    if n < 256 then 256 else if n > 16384 then 16384 else n
  }

  function Least(a: nat, b: nat): nat {
    if a < b then a else b
  }

  function Chunks(id: string, revision: string, content: string, offset: nat, size: nat): seq<Photon>
    requires size > 0
    decreases |content| - offset
  {
    if offset >= |content| then []
    else
      [Photon(CHUNK, Some(id), Some(revision), offset, content[offset..Least(offset + size, |content|)])]
      + Chunks(id, revision, content, offset + size, size)
  }

  predicate UpToDate(previous: Revisions, d: Document, hash: string -> string) {
    d.id in previous && previous[d.id] == hash(d.content)
  }

  function Indexing(previous: Revisions, d: Document, size: nat, hash: string -> string): seq<Photon>
    requires size > 0
  {
    if UpToDate(previous, d, hash) then []
    else [Photon(INDEXED, Some(d.id), Some(hash(d.content)), 0, "")]
         + Chunks(d.id, hash(d.content), d.content, 0, size)
  }

  function Emitted(previous: Revisions, docs: seq<Document>, size: nat, hash: string -> string): seq<Photon>
    requires size > 0
  {
    if docs == [] then []
    else Emitted(previous, docs[..|docs| - 1], size, hash) + Indexing(previous, docs[|docs| - 1], size, hash)
  }

  function Ids(docs: seq<Document>): set<string> {
    set i | 0 <= i < |docs| :: docs[i].id
  }

  predicate ManagedBy(roots: seq<string>, path: string) {
    exists i | 0 <= i < |roots| :: path == roots[i] || roots[i] + "/" <= path
  }

  /** The paths to bury: under one of `roots` and no longer there. */
  function Absent(previous: Revisions, roots: seq<string>, current: set<string>): set<string> {
    set path | path in previous && ManagedBy(roots, path) && path !in current
  }

  /** One tombstone for each of `paths`, in some order. */
  ghost predicate Buries(tombs: seq<Photon>, previous: Revisions, paths: set<string>) {
    && paths <= previous.Keys
    && (forall i | 0 <= i < |tombs| ::
          tombs[i].kind == TOMBSTONED && tombs[i].path.Some? && tombs[i].path.value in paths
          && tombs[i].revision == Some(previous[tombs[i].path.value]))
    && (forall path | path in paths :: exists i | 0 <= i < |tombs| :: tombs[i].path == Some(path))
  }

  function Summary(): Photon {
    Photon(REBUILT, None, None, 0, "")
  }

  const MOST_FILES := 4096

  /** Walking the roots ends once this many files are indexed. */
  function Cut(found: seq<Document>): (files: seq<Document>)
    ensures files <= found && |files| <= MOST_FILES
  {
    if |found| <= MOST_FILES then found else found[..MOST_FILES]
  }

  lemma RoomIsTaken(files: seq<Document>, i: nat, count: nat)
    requires i <= |files| && count + i <= MOST_FILES && (i == |files| || count + i == MOST_FILES)
    ensures files[..i] == RoomFor(files, count)
  {
  }

  /** The paths of all roots that are configured. */
  function Configured(roots: seq<Root>): seq<string> {
    if roots == [] then [] else Configured(roots[..|roots| - 1]) + [roots[|roots| - 1].path]
  }

  /** The paths of those that are directories: the others are skipped before anything else. */
  function Walked(roots: seq<Root>): seq<string> {
    if roots == [] then []
    else
      var root := roots[|roots| - 1];
      Walked(roots[..|roots| - 1]) + if root.files.Some? then [root.path] else []
  }

  /** The files of all walks. */
  function Found(roots: seq<Root>): seq<Document> {
    if roots == [] then []
    else
      var root := roots[|roots| - 1];
      Found(roots[..|roots| - 1]) + if root.files.Some? then root.files.value else []
  }

  /** Of the files of one more walk, those there is still room for. */
  function RoomFor(files: seq<Document>, count: nat): seq<Document>
    requires count <= MOST_FILES
  {
    if |files| <= MOST_FILES - count then files else files[..MOST_FILES - count]
  }

  lemma CutGrows(found: seq<Document>, files: seq<Document>)
    ensures Cut(found + files) == Cut(found) + RoomFor(files, |Cut(found)|)
  {
  }

  lemma OneMoreRoot(roots: seq<Root>, i: nat)
    requires i < |roots|
    ensures var root, before, after := roots[i], roots[..i], roots[..i + 1];
      && Configured(after) == Configured(before) + [root.path]
      && Walked(after) == Walked(before) + (if root.files.Some? then [root.path] else [])
      && Found(after) == Found(before) + (if root.files.Some? then root.files.value else [])
  {
    assert roots[..i + 1][..i] == roots[..i];
  }

  function ItemsOf<T>(given: Given<T>): seq<T> {
    if given.Present? then given.items else []
  }

  // ----- the index -----

  class Index {
    var log: seq<Photon>

    constructor (log: seq<Photon>)
      ensures this.log == log
    {
      this.log := log;
    }

    /** The map of current revisions, built by one pass over the log. */
    method Previous() returns (previous: Revisions)
      ensures previous == Fold(map[], log)
    {
      previous := map[];
      for i := 0 to |log|
        invariant previous == Fold(map[], log[..i])
      {
        var p := log[i];
        assert log[..i + 1][..i] == log[..i];
        if p.path.Some? && p.revision.Some? {
          if p.kind == INDEXED {
            previous := previous[p.path.value := p.revision.value];
          } else if p.kind == TOMBSTONED {
            previous := previous - {p.path.value};
          }
        }
      }
      assert log[..|log|] == log;
    }

    /** `index_document`: nothing for an unchanged document, else its photon and its chunks. */
    method IndexDocument(previous: Revisions, d: Document, size: nat, hash: string -> string)
        returns (chunks: nat, updated: nat)
      requires size > 0
      modifies this
      ensures log == old(log) + Indexing(previous, d, size, hash)
      ensures updated == if UpToDate(previous, d, hash) then 0 else 1
      ensures |Indexing(previous, d, size, hash)| == updated + chunks
    {
      var revision := hash(d.content);
      chunks, updated := 0, 0;
      ghost var was := log;
      if d.id in previous && previous[d.id] == revision {
        assert log == was + [];
        return;
      }
      log := log + [Photon(INDEXED, Some(d.id), Some(revision), 0, "")];
      ghost var all := Chunks(d.id, revision, d.content, 0, size);
      ghost var target := log + all;
      var offset := 0;
      while offset < |d.content|
        invariant log + Chunks(d.id, revision, d.content, offset, size) == target
        invariant chunks + |Chunks(d.id, revision, d.content, offset, size)| == |all|
        decreases |d.content| - offset
      {
        var text := d.content[offset..Least(offset + size, |d.content|)];
        ghost var before := log;
        log := log + [Photon(CHUNK, Some(d.id), Some(revision), offset, text)];
        chunks := chunks + 1;
        assert log + Chunks(d.id, revision, d.content, offset + size, size)
            == before + ([Photon(CHUNK, Some(d.id), Some(revision), offset, text)]
                         + Chunks(d.id, revision, d.content, offset + size, size));
        offset := offset + size;
      }
      assert log + [] == log;
      assert target == was + ([Photon(INDEXED, Some(d.id), Some(revision), 0, "")] + all);
      updated := 1;
    }

    /**
     * The `rag.reindex` act: the files found under the roots that are directories, then the documents handed in,
     * then a tombstone for each path under such a root that is gone. A malformed document stops it where it stands.
     */
    method Run(roots: Given<Root>, supplied: Given<Supplied>, chunkChars: Option<int>, hash: string -> string)
        returns (outcome: Outcome, ghost tombs: seq<Photon>)
      modifies this
      ensures outcome == RootsMistyped <==> roots.Mistyped?
      ensures outcome == DocumentsMistyped <==> !roots.Mistyped? && supplied.Mistyped?
      ensures outcome.Rebuilt? <==> !roots.Mistyped? && !supplied.Mistyped? && AllFine(ItemsOf(supplied))
      ensures !roots.Mistyped? && !supplied.Mistyped? && !AllFine(ItemsOf(supplied)) ==>
        exists i: nat | IsFirstRefused(ItemsOf(supplied), i) :: outcome == Verdict(ItemsOf(supplied)[i]).outcome
      ensures var previous, size := Fold(map[], old(log)), Clamp(chunkChars);
        var done := Cut(Found(ItemsOf(roots))) + Accepted(ItemsOf(supplied));
        if outcome.Rebuilt? then
          && Buries(tombs, previous, Absent(previous, Walked(ItemsOf(roots)), Ids(done)))
          && log == old(log) + Emitted(previous, done, size, hash) + tombs + [Summary()]
          && outcome.documents == |done|
          && outcome.updated + outcome.chunks == |Emitted(previous, done, size, hash)|
        else if roots.Mistyped? || supplied.Mistyped? then
          log == old(log)
        else
          log == old(log) + Emitted(previous, done, size, hash)
    {
      hide Emitted;
      hide Buries;
      hide Absent;
      hide Cut;
      hide Walked;
      hide Found;
      hide Accepted;
      hide Ids;
      hide Clamp;
      tombs := [];
      if roots.Mistyped? { return RootsMistyped, tombs; }
      if supplied.Mistyped? { return DocumentsMistyped, tombs; }
      var size := Clamp(chunkChars);
      var previous := Previous();
      ghost var files := Cut(Found(ItemsOf(roots)));
      var canonical, current, count, chunks, updated := WalkRoots(previous, ItemsOf(roots), size, hash);
      var documents := ItemsOf(supplied);
      var refusal, more, c, u := IndexSupplied(previous, documents, size, hash);
      EmittedAppend(previous, files, Accepted(documents), size, hash);
      ghost var emitted := Emitted(previous, files + Accepted(documents), size, hash);
      ghost var walked := Emitted(previous, files, size, hash);
      assert log == old(log) + (walked + Emitted(previous, Accepted(documents), size, hash));
      assert log == old(log) + emitted;
      if refusal.Some? { return refusal.value, tombs; }
      IdsOfBoth(files, Accepted(documents));
      tombs := Bury(previous, canonical, current + more);
      log := log + [Summary()];
      outcome := Rebuilt(count + |documents|, chunks + c, updated + u);
    }

    /** The loop over the configured roots: one that is no directory is skipped. */
    method WalkRoots(previous: Revisions, roots: seq<Root>, size: nat, hash: string -> string)
        returns (canonical: seq<string>, current: set<string>, count: nat, chunks: nat, updated: nat)
      requires size > 0
      modifies this
      ensures canonical == Walked(roots)
      ensures log == old(log) + Emitted(previous, Cut(Found(roots)), size, hash)
      ensures current == Ids(Cut(Found(roots))) && count == |Cut(Found(roots))|
      ensures |Emitted(previous, Cut(Found(roots)), size, hash)| == updated + chunks
    {
      canonical, current, count, chunks, updated := [], {}, 0, 0, 0;
      ghost var start := log;
      var i := 0;
      NothingWalked(start, previous, roots, size, hash);
      hide IsWalk;
      while i < |roots|
        invariant i <= |roots| && count <= MOST_FILES
        invariant IsWalk(start, log, previous, roots[..i], size, hash, canonical, current, count, chunks, updated)
      {
        ghost var was := log;
        if roots[i].files.Some? {
          var files := roots[i].files.value;
          var ids, n, c, u := IndexFiles(previous, files, count, size, hash);
          RootWalked(start, was, previous, roots, i, size, hash, canonical, current, count, chunks, updated, c, u);
          canonical := canonical + [roots[i].path];
          current, count, chunks, updated := current + ids, count + n, chunks + c, updated + u;
        } else {
          RootSkipped(start, was, previous, roots, i, size, hash, canonical, current, count, chunks, updated);
        }
        i := i + 1;
      }
      assert roots[..i] == roots;
      WalkDone(start, log, previous, roots, size, hash, canonical, current, count, chunks, updated);
    }

    /** The files of one walk, until there are enough; `count` were indexed before. */
    method IndexFiles(previous: Revisions, files: seq<Document>, count: nat, size: nat, hash: string -> string)
        returns (current: set<string>, n: nat, chunks: nat, updated: nat)
      requires size > 0 && count <= MOST_FILES
      modifies this
      ensures log == old(log) + Emitted(previous, RoomFor(files, count), size, hash)
      ensures current == Ids(RoomFor(files, count)) && n == |RoomFor(files, count)|
      ensures |Emitted(previous, RoomFor(files, count), size, hash)| == updated + chunks
    {
      hide Emitted;
      hide Indexing;
      hide UpToDate;
      hide Ids;
      hide RoomFor;
      current, n, chunks, updated := {}, 0, 0, 0;
      NothingEmitted(previous, [], size, hash);
      assert files[..0] == [];
      while n < |files| && count + n < MOST_FILES
        invariant n <= |files| && count + n <= MOST_FILES
        invariant current == Ids(files[..n])
        invariant log == old(log) + Emitted(previous, files[..n], size, hash)
        invariant |Emitted(previous, files[..n], size, hash)| == updated + chunks
      {
        var c, u := IndexDocument(previous, files[n], size, hash);
        current := current + {files[n].id};
        chunks, updated := chunks + c, updated + u;
        OneMore(previous, files[..n], files[n], size, hash);
        assert files[..n + 1] == files[..n] + [files[n]];
        n := n + 1;
      }
      RoomIsTaken(files, n, count);
    }

    /** The documents handed in, up to the first refused one. */
    method IndexSupplied(previous: Revisions, supplied: seq<Supplied>, size: nat, hash: string -> string)
        returns (refusal: Option<Outcome>, current: set<string>, chunks: nat, updated: nat)
      requires size > 0
      modifies this
      ensures log == old(log) + Emitted(previous, Accepted(supplied), size, hash)
      ensures current == Ids(Accepted(supplied))
      ensures |Emitted(previous, Accepted(supplied), size, hash)| == updated + chunks
      ensures refusal.None? <==> AllFine(supplied)
      ensures refusal.Some? ==>
        exists i: nat | IsFirstRefused(supplied, i) :: refusal.value == Verdict(supplied[i]).outcome
      ensures refusal.None? ==> |Accepted(supplied)| == |supplied|
    {
      hide Indexing;
      hide UpToDate;
      hide Verdict;
      hide Emitted;
      hide Accepted;
      hide Ids;
      refusal, current, chunks, updated := None, {}, 0, 0;
      NothingEmitted(previous, supplied, size, hash);
      for i := 0 to |supplied|
        invariant forall j | 0 <= j < i :: Verdict(supplied[j]).Fine?
        invariant current == Ids(Accepted(supplied[..i])) && |Accepted(supplied[..i])| == i
        invariant log == old(log) + Emitted(previous, Accepted(supplied[..i]), size, hash)
        invariant |Emitted(previous, Accepted(supplied[..i]), size, hash)| == updated + chunks
      {
        AcceptedPrefix(supplied, i);
        var verdict := Verdict(supplied[i]);
        if verdict.Refused? {
          assert IsFirstRefused(supplied, i);
          return Some(verdict.outcome), current, chunks, updated;
        }
        var d := verdict.document;
        var c, u := IndexDocument(previous, d, size, hash);
        current := current + {d.id};
        chunks, updated := chunks + c, updated + u;
        OneMore(previous, Accepted(supplied[..i]), d, size, hash);
      }
      assert supplied[..|supplied|] == supplied;
    }

    method Bury(previous: Revisions, roots: seq<string>, current: set<string>) returns (ghost tombs: seq<Photon>)
      modifies this
      ensures log == old(log) + tombs
      ensures Buries(tombs, previous, Absent(previous, roots, current))
    {
      tombs := [];
      var paths := Absent(previous, roots, current);
      ghost var buried: set<string> := {};
      ghost var all := paths;
      while paths != {}
        invariant buried + paths == all && all <= previous.Keys
        invariant log == old(log) + tombs
        invariant Buries(tombs, previous, buried)
      {
        var path :| path in paths;
        var p := Photon(TOMBSTONED, Some(path), Some(previous[path]), 0, "");
        BuryOne(tombs, previous, buried, path, p);
        log := log + [p];
        tombs := tombs + [p];
        paths, buried := paths - {path}, buried + {path};
      }
      assert buried == all;
    }
  }

  /** What one more root adds. */
  lemma WalkGrows(previous: Revisions, roots: seq<Root>, i: nat, size: nat, hash: string -> string)
    requires size > 0 && i < |roots|
    ensures var before, after := Cut(Found(roots[..i])), Cut(Found(roots[..i + 1]));
      if roots[i].files.None? then
        after == before && Walked(roots[..i + 1]) == Walked(roots[..i])
      else
        var room := RoomFor(roots[i].files.value, |before|);
        && Walked(roots[..i + 1]) == Walked(roots[..i]) + [roots[i].path]
        && Emitted(previous, after, size, hash)
           == Emitted(previous, before, size, hash) + Emitted(previous, room, size, hash)
        && Ids(after) == Ids(before) + Ids(room) && |after| == |before| + |room|
  {
    hide Emitted;
    hide Ids;
    hide Cut;
    hide Walked;
    hide Found;
    hide RoomFor;
    OneMoreRoot(roots, i);
    var before := Cut(Found(roots[..i]));
    if roots[i].files.None? {
      assert Found(roots[..i]) + [] == Found(roots[..i]) && Walked(roots[..i]) + [] == Walked(roots[..i]);
    } else {
      var files := roots[i].files.value;
      CutGrows(Found(roots[..i]), files);
      EmittedAppend(previous, before, RoomFor(files, |before|), size, hash);
      IdsOfBoth(before, RoomFor(files, |before|));
    }
  }

  /** Where the loop over the roots stands once `done` are behind it. */
  ghost predicate IsWalk(start: seq<Photon>, log: seq<Photon>, previous: Revisions, done: seq<Root>, size: nat,
                         hash: string -> string, canonical: seq<string>, current: set<string>, count: nat,
                         chunks: nat, updated: nat)
    requires size > 0
  {
    var files := Cut(Found(done));
    && canonical == Walked(done)
    && log == start + Emitted(previous, files, size, hash)
    && current == Ids(files) && count == |files|
    && |Emitted(previous, files, size, hash)| == updated + chunks
  }

  lemma NothingWalked(start: seq<Photon>, previous: Revisions, roots: seq<Root>, size: nat, hash: string -> string)
    requires size > 0
    ensures IsWalk(start, start, previous, roots[..0], size, hash, [], {}, 0, 0, 0)
  {
    assert roots[..0] == [];
    assert Found([]) == [] && Walked([]) == [] && Cut([]) == [];
    NothingEmitted(previous, [], size, hash);
    assert start + [] == start;
  }

  lemma RootSkipped(start: seq<Photon>, log: seq<Photon>, previous: Revisions, roots: seq<Root>, i: nat, size: nat,
                    hash: string -> string, canonical: seq<string>, current: set<string>, count: nat, chunks: nat,
                    updated: nat)
    requires size > 0 && i < |roots| && roots[i].files.None?
    requires IsWalk(start, log, previous, roots[..i], size, hash, canonical, current, count, chunks, updated)
    ensures IsWalk(start, log, previous, roots[..i + 1], size, hash, canonical, current, count, chunks, updated)
  {
    WalkGrows(previous, roots, i, size, hash);
  }

  lemma RootWalked(start: seq<Photon>, log: seq<Photon>, previous: Revisions, roots: seq<Root>, i: nat, size: nat,
                   hash: string -> string, canonical: seq<string>, current: set<string>, count: nat, chunks: nat,
                   updated: nat, c: nat, u: nat)
    requires size > 0 && i < |roots| && roots[i].files.Some? && count <= MOST_FILES
    requires IsWalk(start, log, previous, roots[..i], size, hash, canonical, current, count, chunks, updated)
    requires |Emitted(previous, RoomFor(roots[i].files.value, count), size, hash)| == u + c
    ensures var room := RoomFor(roots[i].files.value, count);
      && count + |room| <= MOST_FILES
      && IsWalk(start, log + Emitted(previous, room, size, hash), previous, roots[..i + 1], size, hash,
                canonical + [roots[i].path], current + Ids(room), count + |room|, chunks + c, updated + u)
  {
    hide Emitted;
    hide Ids;
    hide Walked;
    hide Found;
    WalkGrows(previous, roots, i, size, hash);
    var first := Emitted(previous, Cut(Found(roots[..i])), size, hash);
    var second := Emitted(previous, RoomFor(roots[i].files.value, count), size, hash);
    assert start + first + second == start + (first + second);
  }

  lemma WalkDone(start: seq<Photon>, log: seq<Photon>, previous: Revisions, done: seq<Root>, size: nat,
                 hash: string -> string, canonical: seq<string>, current: set<string>, count: nat, chunks: nat,
                 updated: nat)
    requires size > 0
    requires IsWalk(start, log, previous, done, size, hash, canonical, current, count, chunks, updated)
    ensures canonical == Walked(done)
    ensures log == start + Emitted(previous, Cut(Found(done)), size, hash)
    ensures current == Ids(Cut(Found(done))) && count == |Cut(Found(done))|
    ensures |Emitted(previous, Cut(Found(done)), size, hash)| == updated + chunks
  {
  }

  lemma BuryOne(tombs: seq<Photon>, previous: Revisions, buried: set<string>, path: string, p: Photon)
    requires Buries(tombs, previous, buried) && path in previous
    requires p == Photon(TOMBSTONED, Some(path), Some(previous[path]), 0, "")
    ensures Buries(tombs + [p], previous, buried + {path})
  {
    var more := tombs + [p];
    forall q | q in buried + {path} ensures exists i | 0 <= i < |more| :: more[i].path == Some(q) {
      if q == path {
        assert more[|tombs|].path == Some(q);
      } else {
        var i :| 0 <= i < |tombs| && tombs[i].path == Some(q);
        assert more[i].path == Some(q);
      }
    }
  }

  lemma {:induction false} EmittedAppend(previous: Revisions, a: seq<Document>, b: seq<Document>, size: nat,
                                         hash: string -> string)
    requires size > 0
    ensures Emitted(previous, a + b, size, hash)
         == Emitted(previous, a, size, hash) + Emitted(previous, b, size, hash)
    decreases |b|
  {
    hide Indexing;
    if b == [] {
      assert a + b == a;
    } else {
      assert (a + b)[..|a + b| - 1] == a + b[..|b| - 1];
      EmittedAppend(previous, a, b[..|b| - 1], size, hash);
    }
  }

  lemma NothingEmitted(previous: Revisions, supplied: seq<Supplied>, size: nat, hash: string -> string)
    requires size > 0
    ensures Accepted(supplied[..0]) == [] && Ids([]) == {} && Emitted(previous, [], size, hash) == []
  {
  }

  lemma IdsOfBoth(a: seq<Document>, b: seq<Document>)
    ensures Ids(a + b) == Ids(a) + Ids(b)
  {
    forall id ensures id in Ids(a + b) <==> id in Ids(a) + Ids(b) {
      if id in Ids(a) {
        var i :| 0 <= i < |a| && a[i].id == id;
        assert (a + b)[i].id == id;
      }
      if id in Ids(b) {
        var i :| 0 <= i < |b| && b[i].id == id;
        assert (a + b)[|a| + i].id == id;
      }
    }
  }

  lemma OneMore(previous: Revisions, docs: seq<Document>, d: Document, size: nat, hash: string -> string)
    requires size > 0
    ensures Emitted(previous, docs + [d], size, hash)
         == Emitted(previous, docs, size, hash) + Indexing(previous, d, size, hash)
    ensures Ids(docs + [d]) == Ids(docs) + {d.id}
  {
    assert (docs + [d])[..|docs|] == docs;
    forall id ensures id in Ids(docs + [d]) <==> id in Ids(docs) + {d.id} {
      if id in Ids(docs) {
        var i :| 0 <= i < |docs| && docs[i].id == id;
        assert (docs + [d])[i].id == id;
      }
      if id == d.id {
        assert (docs + [d])[|docs|].id == id;
      }
    }
  }

  // ----- the documents handed in -----

  datatype Judgement = Fine(document: Document) | Refused(outcome: Outcome)

  function Verdict(s: Supplied): (v: Judgement)
    ensures v.Refused? ==> v.outcome.Malformed? || v.outcome.SourceNotAllowed?
  {
    if s.identifier.None? || s.content.None? || s.identifier.value == "" then Refused(Malformed)
    else
      var source := if s.source.None? then "external" else s.source.value;
      if source != "cove" && source != "chora" && source != "external" then Refused(SourceNotAllowed)
      else Fine(Document(s.identifier.value, s.content.value))
  }

  ghost predicate AllFine(supplied: seq<Supplied>) {
    forall i | 0 <= i < |supplied| :: Verdict(supplied[i]).Fine?
  }

  ghost predicate IsFirstRefused(supplied: seq<Supplied>, i: nat) {
    i < |supplied| && Verdict(supplied[i]).Refused? && forall j | 0 <= j < i :: Verdict(supplied[j]).Fine?
  }

  /** The documents before the first refused one. */
  function Accepted(supplied: seq<Supplied>): seq<Document> {
    if supplied == [] || Verdict(supplied[0]).Refused? then []
    else [Verdict(supplied[0]).document] + Accepted(supplied[1..])
  }

  lemma {:induction false} AcceptedPrefix(supplied: seq<Supplied>, i: nat)
    requires i < |supplied| && forall j | 0 <= j < i :: Verdict(supplied[j]).Fine?
    ensures Verdict(supplied[i]).Refused? ==> Accepted(supplied[..i]) == Accepted(supplied)
    ensures Verdict(supplied[i]).Fine? ==>
      Accepted(supplied[..i + 1]) == Accepted(supplied[..i]) + [Verdict(supplied[i]).document]
  {
    if i > 0 {
      var rest := supplied[1..];
      AcceptedPrefix(rest, i - 1);
      assert supplied[..i][1..] == rest[..i - 1] && supplied[..i + 1][1..] == rest[..i];
    } else {
      assert supplied[..1][1..] == [];
    }
  }

  // ----- the fold of what was emitted -----

  lemma {:induction false} ChunksFoldToNothing(m: Revisions, ps: seq<Photon>)
    requires forall i | 0 <= i < |ps| :: ps[i].kind == CHUNK
    ensures Fold(m, ps) == m
  {
    if ps != [] {
      ChunksFoldToNothing(m, ps[..|ps| - 1]);
    }
  }

  lemma {:induction false} ChunksAreChunks(id: string, revision: string, content: string, offset: nat, size: nat)
    requires size > 0
    ensures forall i | 0 <= i < |Chunks(id, revision, content, offset, size)| ::
      Chunks(id, revision, content, offset, size)[i].kind == CHUNK
    decreases |content| - offset
  {
    if offset < |content| {
      ChunksAreChunks(id, revision, content, offset + size, size);
    }
  }

  /** The map after the documents: a document found up to date at the start leaves it alone. */
  ghost function Updated(previous: Revisions, docs: seq<Document>, hash: string -> string): Revisions {
    if docs == [] then previous
    else
      var m, d := Updated(previous, docs[..|docs| - 1], hash), docs[|docs| - 1];
      if UpToDate(previous, d, hash) then m else m[d.id := hash(d.content)]
  }

  lemma {:induction false} EmittedFolds(previous: Revisions, docs: seq<Document>, size: nat, hash: string -> string)
    requires size > 0
    ensures Fold(previous, Emitted(previous, docs, size, hash)) == Updated(previous, docs, hash)
  {
    if docs != [] {
      var init, d := docs[..|docs| - 1], docs[|docs| - 1];
      EmittedFolds(previous, init, size, hash);
      FoldAppend(previous, Emitted(previous, init, size, hash), Indexing(previous, d, size, hash));
      IndexingFolds(Updated(previous, init, hash), previous, d, size, hash);
    }
  }

  lemma IndexingFolds(m: Revisions, previous: Revisions, d: Document, size: nat, hash: string -> string)
    requires size > 0
    ensures Fold(m, Indexing(previous, d, size, hash))
         == if UpToDate(previous, d, hash) then m else m[d.id := hash(d.content)]
  {
    if !UpToDate(previous, d, hash) {
      var chunks := Chunks(d.id, hash(d.content), d.content, 0, size);
      var p := Photon(INDEXED, Some(d.id), Some(hash(d.content)), 0, "");
      FoldAppend(m, [p], chunks);
      ChunksAreChunks(d.id, hash(d.content), d.content, 0, size);
      ChunksFoldToNothing(Fold(m, [p]), chunks);
      assert [p][..0] == [];
      assert Fold(m, [p]) == Apply(m, p);
    }
  }

  lemma {:induction false} TombstonesFold(m: Revisions, previous: Revisions, tombs: seq<Photon>, paths: set<string>)
    requires Buries(tombs, previous, paths)
    ensures Fold(m, tombs) == m - paths
  {
    TombstonesFoldTo(m, tombs);
    assert (set i | 0 <= i < |tombs| :: tombs[i].path.value) == paths by {
      forall path | path in paths ensures path in (set i | 0 <= i < |tombs| :: tombs[i].path.value) {
        var i :| 0 <= i < |tombs| && tombs[i].path == Some(path);
        assert tombs[i].path.value == path;
      }
    }
  }

  lemma {:induction false} TombstonesFoldTo(m: Revisions, tombs: seq<Photon>)
    requires forall i | 0 <= i < |tombs| ::
      tombs[i].kind == TOMBSTONED && tombs[i].path.Some? && tombs[i].revision.Some?
    ensures Fold(m, tombs) == m - set i | 0 <= i < |tombs| :: tombs[i].path.value
  {
    if tombs != [] {
      var init := tombs[..|tombs| - 1];
      TombstonesFoldTo(m, init);
      var before := set i | 0 <= i < |init| :: init[i].path.value;
      var after := set i | 0 <= i < |tombs| :: tombs[i].path.value;
      assert after == before + {tombs[|tombs| - 1].path.value} by {
        forall path | path in before ensures path in after {
          var i :| 0 <= i < |init| && init[i].path.value == path;
          assert tombs[i].path.value == path;
        }
      }
    }
  }

  // ----- agreement with a rebuild -----

  /** The last content given for an id. */
  ghost function LastContent(docs: seq<Document>, id: string): string
    requires id in Ids(docs)
  {
    var d := docs[|docs| - 1];
    if d.id == id then d.content
    else
      NotLast(docs, id);
      LastContent(docs[..|docs| - 1], id)
  }

  lemma NotLast(docs: seq<Document>, id: string)
    requires id in Ids(docs) && docs[|docs| - 1].id != id
    ensures id in Ids(docs[..|docs| - 1])
  {
    var i :| 0 <= i < |docs| && docs[i].id == id;
    assert docs[..|docs| - 1][i].id == id;
  }

  /** What a rebuild from the documents alone leaves, next to the paths no root manages. */
  ghost function Rebuild(previous: Revisions, docs: seq<Document>, roots: seq<string>,
                         hash: string -> string): Revisions
  {
    map id | id in previous.Keys + Ids(docs) && (id in Ids(docs) || !ManagedBy(roots, id)) ::
      if id in Ids(docs) then hash(LastContent(docs, id)) else previous[id]
  }

  /**
   * An id given more than once is harmless unless its last content is what the index already had
   * while an earlier one was not.
   */
  ghost predicate Harmless(previous: Revisions, docs: seq<Document>, hash: string -> string, id: string)
    requires id in Ids(docs)
  {
    id in previous && previous[id] == hash(LastContent(docs, id)) ==>
      forall i | 0 <= i < |docs| && docs[i].id == id :: hash(docs[i].content) == previous[id]
  }

  ghost predicate AllHarmless(previous: Revisions, docs: seq<Document>, hash: string -> string) {
    forall id | id in Ids(docs) :: Harmless(previous, docs, hash, id)
  }

  lemma {:induction false} UpdatedAt(previous: Revisions, docs: seq<Document>, hash: string -> string, id: string)
    ensures var m := Updated(previous, docs, hash);
      && (id in m <==> id in previous || id in Ids(docs))
      && (id !in Ids(docs) && id in previous ==> m[id] == previous[id])
      && (id in Ids(docs) ==> (m[id] == hash(LastContent(docs, id)) <==> Harmless(previous, docs, hash, id)))
      && (id in Ids(docs) && m[id] != hash(LastContent(docs, id)) ==> id in previous)
      && (id in Ids(docs) && id in previous ==>
            (m[id] == previous[id] <==>
               forall i | 0 <= i < |docs| && docs[i].id == id :: hash(docs[i].content) == previous[id]))
    decreases |docs|
  {
    if docs != [] {
      var init, d := docs[..|docs| - 1], docs[|docs| - 1];
      assert docs == init + [d];
      IdsOfInit(docs, id);
      UpdatedAt(previous, init, hash, id);
      if d.id == id {
        assert docs[|docs| - 1].id == id;
      }
      assert forall i | 0 <= i < |init| :: docs[i] == init[i];
    }
  }

  lemma IdsOfInit(docs: seq<Document>, id: string)
    requires docs != []
    ensures id in Ids(docs) <==> id in Ids(docs[..|docs| - 1]) || docs[|docs| - 1].id == id
  {
    if id in Ids(docs) && docs[|docs| - 1].id != id {
      NotLast(docs, id);
    }
    if id in Ids(docs[..|docs| - 1]) {
      var i :| 0 <= i < |docs| - 1 && docs[..|docs| - 1][i].id == id;
      assert docs[i].id == id;
    }
    if docs[|docs| - 1].id == id {
      assert id in Ids(docs);
    }
  }

  /** The map after the run: what the documents left, without the paths that were buried. */
  lemma ExtendedFold(log: seq<Photon>, docs: seq<Document>, roots: seq<string>, size: nat,
                     hash: string -> string, tombs: seq<Photon>)
    requires size > 0
    requires var previous := Fold(map[], log); Buries(tombs, previous, Absent(previous, roots, Ids(docs)))
    ensures var previous := Fold(map[], log);
      Fold(map[], log + Emitted(previous, docs, size, hash) + tombs + [Summary()])
        == Updated(previous, docs, hash) - Absent(previous, roots, Ids(docs))
  {
    hide Updated;
    hide Emitted;
    var previous := Fold(map[], log);
    var emitted := Emitted(previous, docs, size, hash);
    var absent := Absent(previous, roots, Ids(docs));
    FoldAppend(map[], log, emitted);
    FoldAppend(map[], log + emitted, tombs);
    FoldAppend(map[], log + emitted + tombs, [Summary()]);
    EmittedFolds(previous, docs, size, hash);
    var updated := Updated(previous, docs, hash);
    TombstonesFold(updated, previous, tombs, absent);
    SummaryFolds(updated - absent);
  }

  /** Every indexed path that is not among `ids` and under a configured root is under one that is a directory. */
  ghost predicate AllWalked(previous: Revisions, ids: set<string>, roots: seq<Root>) {
    forall p | p in previous && p !in ids && ManagedBy(Configured(roots), p) :: ManagedBy(Walked(roots), p)
  }

  /**
   * Folding the extended log gives what a rebuild under the configured roots gives, for every prior log, exactly
   * when no id is given an older and then the indexed content, and no absent path is under a root that is no
   * directory only.
   */
  lemma ReindexAgreesWithRebuild(log: seq<Photon>, docs: seq<Document>, roots: seq<Root>, size: nat,
                                 hash: string -> string, tombs: seq<Photon>)
    requires size > 0
    requires var previous := Fold(map[], log); Buries(tombs, previous, Absent(previous, Walked(roots), Ids(docs)))
    ensures var previous := Fold(map[], log);
      Fold(map[], log + Emitted(previous, docs, size, hash) + tombs + [Summary()])
        == Rebuild(previous, docs, Configured(roots), hash)
      <==> AllHarmless(previous, docs, hash) && AllWalked(previous, Ids(docs), roots)
  {
    hide Fold;
    ExtendedFold(log, docs, Walked(roots), size, hash, tombs);
    WalkedAreConfigured(roots);
    FinalMap(Fold(map[], log), docs, roots, hash);
  }

  lemma {:induction false} WalkedAreConfigured(roots: seq<Root>)
    ensures forall p | ManagedBy(Walked(roots), p) :: ManagedBy(Configured(roots), p)
  {
    hide ManagedBy;
    if roots == [] {
      NothingManaged();
    } else {
      var init, root := roots[..|roots| - 1], roots[|roots| - 1];
      WalkedAreConfigured(init);
      forall p | ManagedBy(Walked(roots), p) ensures ManagedBy(Configured(roots), p) {
        ManagedByOneMore(Walked(init), root.path, p);
        ManagedByOneMore(Configured(init), root.path, p);
        assert Walked(init) + [] == Walked(init);
      }
    }
  }

  lemma NothingManaged()
    ensures forall p :: !ManagedBy([], p)
  {
  }

  lemma ManagedByOneMore(roots: seq<string>, root: string, p: string)
    ensures ManagedBy(roots + [root], p) <==> ManagedBy(roots, p) || ManagedBy([root], p)
  {
    var more := roots + [root];
    if ManagedBy(roots, p) {
      var i :| 0 <= i < |roots| && (p == roots[i] || roots[i] + "/" <= p);
      assert more[i] == roots[i];
    }
    assert more[|roots|] == root && [root][0] == root;
  }

  /** A path that is not there any more stays if no walked root is above it, however it is configured. */
  lemma UnwalkedPathStays(log: seq<Photon>, docs: seq<Document>, roots: seq<Root>, size: nat,
                          hash: string -> string, tombs: seq<Photon>, path: string)
    requires size > 0 && path !in Ids(docs) && !ManagedBy(Walked(roots), path)
    requires var previous := Fold(map[], log);
      path in previous && Buries(tombs, previous, Absent(previous, Walked(roots), Ids(docs)))
    ensures var previous := Fold(map[], log);
      var m := Fold(map[], log + Emitted(previous, docs, size, hash) + tombs + [Summary()]);
      path in m && m[path] == previous[path]
  {
    hide Fold;
    ExtendedFold(log, docs, Walked(roots), size, hash, tombs);
    UpdatedAt(Fold(map[], log), docs, hash, path);
  }

  /** Once its directory is gone, nothing is buried under a root, and a rebuild would be empty. */
  lemma GoneRootKeepsItsDocuments(hash: string -> string)
    ensures var log, roots := [Photon(INDEXED, Some("r/a"), Some("1"), 0, "")], [Root("r", None)];
      var previous := Fold(map[], log);
      && previous == map["r/a" := "1"] && Found(roots) == [] && Configured(roots) == ["r"]
      && Absent(previous, Walked(roots), {}) == {}
      && Fold(map[], log + Emitted(previous, [], 256, hash) + [] + [Summary()]) == previous
      && Rebuild(previous, [], Configured(roots), hash) == map[]
  {
    var log, roots := [Photon(INDEXED, Some("r/a"), Some("1"), 0, "")], [Root("r", None)];
    assert log[..0] == [] && roots[..0] == [];
    var previous := Fold(map[], log);
    assert previous == Apply(Fold(map[], log[..0]), log[0]);
    assert previous == map["r/a" := "1"];
    assert Configured(roots) == ["r"] && Walked(roots) == [] && Found(roots) == [];
    assert Absent(previous, Walked(roots), {}) == {};
    assert log + Emitted(previous, [], 256, hash) + [] + [Summary()] == log + [Summary()];
    FoldAppend(map[], log, [Summary()]);
    SummaryFolds(previous);
    assert "r" + "/" <= "r/a";
    assert ManagedBy(["r"], "r/a") by { assert ["r"][0] == "r"; }
  }

  /**
   * A file that is there but lies beyond the cut is not only left unindexed: if it was indexed before, it is
   * buried as absent, unless it is handed in as well.
   */
  lemma FileBeyondTheCut(log: seq<Photon>, roots: seq<Root>, handed: seq<Document>, size: nat,
                         hash: string -> string, tombs: seq<Photon>, i: nat)
    requires size > 0 && 4096 <= i < |Found(roots)| && ManagedBy(Walked(roots), Found(roots)[i].id)
    requires var docs, previous := Cut(Found(roots)) + handed, Fold(map[], log);
      Buries(tombs, previous, Absent(previous, Walked(roots), Ids(docs)))
    ensures var docs, previous := Cut(Found(roots)) + handed, Fold(map[], log);
      var m := Fold(map[], log + Emitted(previous, docs, size, hash) + tombs + [Summary()]);
      Found(roots)[i].id in m <==> Found(roots)[i].id in Ids(docs)
  {
    hide Updated;
    hide Emitted;
    hide Fold;
    var docs := Cut(Found(roots)) + handed;
    ExtendedFold(log, docs, Walked(roots), size, hash, tombs);
    UpdatedAt(Fold(map[], log), docs, hash, Found(roots)[i].id);
  }

  /**
   * A whole run over distinct documents, each file under a root that is a directory, agrees with a rebuild from
   * everything there is exactly when no file is beyond the cut and no absent path is under a root that is no
   * directory only.
   */
  lemma RunAgreesExactly(log: seq<Photon>, roots: seq<Root>, handed: seq<Document>, size: nat,
                         hash: string -> string, tombs: seq<Photon>)
    requires size > 0 && Distinct(Found(roots) + handed)
    requires forall i | 0 <= i < |Found(roots)| :: ManagedBy(Walked(roots), Found(roots)[i].id)
    requires var docs, previous := Cut(Found(roots)) + handed, Fold(map[], log);
      Buries(tombs, previous, Absent(previous, Walked(roots), Ids(docs)))
    ensures var docs, all, previous := Cut(Found(roots)) + handed, Found(roots) + handed, Fold(map[], log);
      Fold(map[], log + Emitted(previous, docs, size, hash) + tombs + [Summary()])
        == Rebuild(previous, all, Configured(roots), hash)
      <==> |Found(roots)| <= 4096 && AllWalked(previous, Ids(all), roots)
  {
    hide Fold;
    hide Emitted;
    hide ManagedBy;
    hide Walked;
    hide Configured;
    hide Found;
    var docs, all, previous := Cut(Found(roots)) + handed, Found(roots) + handed, Fold(map[], log);
    if |Found(roots)| <= MOST_FILES {
      DistinctIsHarmless(previous, all, hash);
      ReindexAgreesWithRebuild(log, docs, roots, size, hash, tombs);
    } else {
      var lost := Found(roots)[MOST_FILES].id;
      FileBeyondTheCut(log, roots, handed, size, hash, tombs, MOST_FILES);
      LostFile(Found(roots), handed);
      assert lost in Rebuild(previous, all, Configured(roots), hash);
    }
  }

  lemma LostFile(found: seq<Document>, handed: seq<Document>)
    requires Distinct(found + handed) && |found| > MOST_FILES
    ensures found[MOST_FILES].id in Ids(found + handed) && found[MOST_FILES].id !in Ids(Cut(found) + handed)
  {
    var all, docs := found + handed, Cut(found) + handed;
    assert all[MOST_FILES] == found[MOST_FILES];
    forall i | 0 <= i < |docs| ensures docs[i].id != found[MOST_FILES].id {
      var j := if i < MOST_FILES then i else i - MOST_FILES + |found|;
      assert all[j] == docs[i];
    }
  }

  lemma SummaryFolds(m: Revisions)
    ensures Fold(m, [Summary()]) == m
  {
    assert [Summary()][..0] == [];
  }

  lemma FinalMap(previous: Revisions, docs: seq<Document>, roots: seq<Root>, hash: string -> string)
    requires forall p | ManagedBy(Walked(roots), p) :: ManagedBy(Configured(roots), p)
    ensures Updated(previous, docs, hash) - Absent(previous, Walked(roots), Ids(docs))
        == Rebuild(previous, docs, Configured(roots), hash)
      <==> AllHarmless(previous, docs, hash) && AllWalked(previous, Ids(docs), roots)
  {
    hide ManagedBy;
    hide Updated;
    hide LastContent;
    hide Harmless;
    hide Walked;
    hide Configured;
    var final := Updated(previous, docs, hash) - Absent(previous, Walked(roots), Ids(docs));
    var rebuilt := Rebuild(previous, docs, Configured(roots), hash);
    forall id
      ensures id in final <==>
        id in Ids(docs) || (id in previous && !ManagedBy(Walked(roots), id))
      ensures id in Ids(docs) ==> (final[id] == rebuilt[id] <==> Harmless(previous, docs, hash, id))
      ensures id in final && id !in Ids(docs) ==> final[id] == previous[id]
    {
      UpdatedAt(previous, docs, hash, id);
    }
    if final == rebuilt {
      forall id | id in Ids(docs) ensures Harmless(previous, docs, hash, id) {
        assert id in rebuilt && final[id] == rebuilt[id];
      }
      forall p | p in previous && p !in Ids(docs) && ManagedBy(Configured(roots), p)
        ensures ManagedBy(Walked(roots), p)
      {
        assert p !in rebuilt;
      }
    }
    if AllHarmless(previous, docs, hash) && AllWalked(previous, Ids(docs), roots) {
      assert final.Keys == rebuilt.Keys;
      assert final == rebuilt;
    }
  }

  ghost predicate Distinct(docs: seq<Document>) {
    forall i, j | 0 <= i < j < |docs| :: docs[i].id != docs[j].id
  }

  /** Distinct ids are always harmless. */
  lemma {:induction false} DistinctIsHarmless(previous: Revisions, docs: seq<Document>, hash: string -> string)
    requires Distinct(docs)
    ensures AllHarmless(previous, docs, hash)
  {
    forall id | id in Ids(docs) ensures Harmless(previous, docs, hash, id) {
      var k := LastIndex(docs, id);
    }
  }

  lemma {:induction false} LastIndex(docs: seq<Document>, id: string) returns (k: nat)
    requires id in Ids(docs)
    ensures k < |docs| && docs[k].id == id && LastContent(docs, id) == docs[k].content
    decreases |docs|
  {
    k := |docs| - 1;
    if docs[k].id != id {
      NotLast(docs, id);
      k := LastIndex(docs[..|docs| - 1], id);
    }
  }

  /**
   * Over distinct ids: every document is current, every absent path under a root that is a directory is gone, all
   * else is kept.
   */
  lemma ReindexOverDistinctIds(log: seq<Photon>, docs: seq<Document>, roots: seq<Root>, size: nat,
                               hash: string -> string, tombs: seq<Photon>)
    requires size > 0 && Distinct(docs)
    requires var previous := Fold(map[], log); Buries(tombs, previous, Absent(previous, Walked(roots), Ids(docs)))
    ensures var previous := Fold(map[], log);
      var m := Fold(map[], log + Emitted(previous, docs, size, hash) + tombs + [Summary()]);
      && (forall i | 0 <= i < |docs| :: docs[i].id in m && m[docs[i].id] == hash(docs[i].content))
      && (forall p | p !in Ids(docs) :: p in m <==> p in previous && !ManagedBy(Walked(roots), p))
      && (forall p | p !in Ids(docs) && p in m :: m[p] == previous[p])
  {
    hide Fold;
    hide Emitted;
    hide Buries;
    hide ManagedBy;
    hide Updated;
    var previous := Fold(map[], log);
    DistinctIsHarmless(previous, docs, hash);
    ExtendedFold(log, docs, Walked(roots), size, hash, tombs);
    forall i | 0 <= i < |docs|
      ensures docs[i].id in Updated(previous, docs, hash)
      ensures Updated(previous, docs, hash)[docs[i].id] == hash(docs[i].content)
      ensures docs[i].id in Ids(docs)
    {
      assert docs[i].id in Ids(docs);
      var k := LastIndex(docs, docs[i].id);
      UpdatedAt(previous, docs, hash, docs[i].id);
    }
    forall p ensures p !in Ids(docs) ==> (p in Updated(previous, docs, hash) <==> p in previous)
      ensures p !in Ids(docs) && p in previous ==> Updated(previous, docs, hash)[p] == previous[p]
    {
      UpdatedAt(previous, docs, hash, p);
    }
  }

  /** The failing family: a changed content and then the indexed one leaves the index on the change. */
  lemma RepeatedIdCanDisagree(hash: string -> string)
    requires hash("old") != hash("new")
    ensures var previous, docs: seq<Document> := map["d" := hash("old")], [Document("d", "new"), Document("d", "old")];
      !AllHarmless(previous, docs, hash) && Updated(previous, docs, hash) == map["d" := hash("new")]
  {
    var previous, docs: seq<Document> := map["d" := hash("old")], [Document("d", "new"), Document("d", "old")];
    assert docs[..1] == [Document("d", "new")] && docs[..1][..0] == [];
    assert Updated(previous, docs[..1], hash) == previous["d" := hash("new")];
    assert docs[1].id == "d" && docs[0].id == "d";
    assert !Harmless(previous, docs, hash, "d");
  }

  // ----- chunks -----

  ghost function TextOf(ps: seq<Photon>): string {
    if ps == [] then "" else ps[0].text + TextOf(ps[1..])
  }

  /** The chunks of a changed document, in offset order, are its content, none of them empty or oversized. */
  lemma {:induction false} ChunksConcatenate(id: string, revision: string, content: string, offset: nat, size: nat)
    requires size > 0 && offset <= |content|
    ensures var ps := Chunks(id, revision, content, offset, size);
      && TextOf(ps) == content[offset..]
      && forall i | 0 <= i < |ps| ::
           ps[i].offset == offset + i * size && 0 < |ps[i].text| <= size
           && ps[i].path == Some(id) && ps[i].revision == Some(revision)
    decreases |content| - offset
  {
    var ps := Chunks(id, revision, content, offset, size);
    if offset + size < |content| {
      ChunksConcatenate(id, revision, content, offset + size, size);
      var rest := Chunks(id, revision, content, offset + size, size);
      assert ps[1..] == rest;
      assert content[offset..] == content[offset..offset + size] + content[offset + size..];
      forall i | 0 <= i < |ps| ensures ps[i].offset == offset + i * size && 0 < |ps[i].text| <= size
        && ps[i].path == Some(id) && ps[i].revision == Some(revision)
      {
        if i > 0 {
          assert ps[i] == rest[i - 1];
          assert offset + size + (i - 1) * size == offset + i * size;
        }
      }
    } else if offset < |content| {
      assert Chunks(id, revision, content, offset + size, size) == [];
      assert ps[1..] == [] && ps[0].text == content[offset..];
    }
  }
}
