/** Videos of the library, lookup by id, the title order used by every
    listing, and the library with the flagged videos left out. */
module Videos {
  import opened Collections
  import opened Text

  /** A library entry: an id that identifies it, a title and its tags. */
  datatype Video = Video(id: string, title: string, tags: seq<string>)

  /** The library invariant: no two videos share an id. */
  predicate DistinctIds(s: seq<Video>)
  {
    forall i, j :: 0 <= i < j < |s| ==> s[i].id != s[j].id
  }

  /** The first video of `s` whose id equals `id` exactly, if there is one. */
  function LookupVideo(s: seq<Video>, id: string): (r: Option<Video>)
    ensures r.Some? ==> r.value in s && r.value.id == id
    ensures r.None? <==> forall v :: v in s ==> v.id != id
  {
    if s == [] then None
    else if s[0].id == id then Some(s[0])
    else LookupVideo(s[1..], id)
  }

  /** Lookup returns the first video carrying the id. */
  lemma {:induction false} LookupVideoFirst(s: seq<Video>, id: string, i: nat)
    requires i < |s| && s[i].id == id
    requires forall j :: 0 <= j < i ==> s[j].id != id
    ensures LookupVideo(s, id) == Some(s[i])
  {
    if i > 0 {
      LookupVideoFirst(s[1..], id, i - 1);
    }
  }

  /** In a library with distinct ids, looking a video up by its id finds that video. */
  lemma LookupVideoUnique(s: seq<Video>, v: Video)
    requires DistinctIds(s) && v in s
    ensures LookupVideo(s, v.id) == Some(v)
  {
    var i :| 0 <= i < |s| && s[i] == v;
    LookupVideoFirst(s, v.id, i);
  }

  /** Dropping the head keeps the ids distinct. */
  lemma DistinctTail(s: seq<Video>)
    requires DistinctIds(s) && s != []
    ensures DistinctIds(s[1..])
  {
    forall a, b | 0 <= a < b < |s| - 1 ensures s[1..][a].id != s[1..][b].id {
      assert s[1..][a] == s[a + 1] && s[1..][b] == s[b + 1];
    }
  }

  /** Dropping the element at `i` keeps the ids distinct. */
  lemma DistinctWithout(s: seq<Video>, i: nat)
    requires DistinctIds(s) && i < |s|
    ensures DistinctIds(s[..i] + s[i + 1..])
  {
    var r := s[..i] + s[i + 1..];
    forall a, b | 0 <= a < b < |r| ensures r[a].id != r[b].id {
      var a' := if a < i then a else a + 1;
      var b' := if b < i then b else b + 1;
      assert r[a] == s[a'] && r[b] == s[b'];
    }
  }

  /** Removing a video keeps the ids of a list distinct. */
  lemma DistinctAfterRemove(s: seq<Video>, v: Video)
    requires DistinctIds(s)
    ensures DistinctIds(RemoveFirst(s, v))
  {
    if v in s {
      var i :| 0 <= i < |s| && s[i] == v;
      forall j | 0 <= j < i ensures s[..i][j] != v {
        assert s[..i][j] == s[j];
      }
      RemoveFirstAt(s, v, i);
      DistinctWithout(s, i);
    }
  }

  /** The order of Comparator.comparing(Video::getTitle): `a` may precede `b`. */
  predicate TitleLe(a: Video, b: Video): (r: bool)
    ensures a.title == b.title ==> r
  {
    LessIrreflexive(a.title);
    !Less(b.title, a.title)
  }

  predicate SortedByTitle(s: seq<Video>)
  {
    forall i, j :: 0 <= i < j < |s| ==> TitleLe(s[i], s[j])
  }

  /** Inserts `x` before the first element whose title is not smaller, so
      that `x` stays ahead of the equal titles that follow it. */
  function InsertByTitle(x: Video, s: seq<Video>): (r: seq<Video>)
    ensures multiset(r) == multiset(s) + multiset{x}
  {
    if s == [] || !Less(s[0].title, x.title) then [x] + s
    else
      assert s == [s[0]] + s[1..];
      [s[0]] + InsertByTitle(x, s[1..])
  }

  /** List.sort with the title comparator: a stable sort by title. */
  function SortByTitle(s: seq<Video>): (r: seq<Video>)
    ensures multiset(r) == multiset(s)
  {
    if s == [] then []
    else
      assert s == [s[0]] + s[1..];
      InsertByTitle(s[0], SortByTitle(s[1..]))
  }

  /** Inserting into a title-sorted list keeps it sorted. */
  lemma {:induction false} InsertByTitleSorted(x: Video, s: seq<Video>)
    requires SortedByTitle(s)
    ensures SortedByTitle(InsertByTitle(x, s))
  {
    if s == [] {
    } else if !Less(s[0].title, x.title) {
      forall j | 0 < j < |s| ensures TitleLe(x, s[j]) {
        NotLessTransitive(x.title, s[0].title, s[j].title);
      }
    } else {
      var rest := InsertByTitle(x, s[1..]);
      InsertByTitleSorted(x, s[1..]);
      forall j | 0 <= j < |rest| ensures TitleLe(s[0], rest[j]) {
        assert rest[j] in multiset(rest);
        if rest[j] == x {
          LessAsymmetric(s[0].title, x.title);
        } else {
          assert rest[j] in s[1..];
        }
      }
    }
  }

  /** The library listing is ordered by title. */
  lemma {:induction false} SortByTitleSorted(s: seq<Video>)
    ensures SortedByTitle(SortByTitle(s))
  {
    if s != [] {
      SortByTitleSorted(s[1..]);
      InsertByTitleSorted(s[0], SortByTitle(s[1..]));
    }
  }

  /** The videos of `s` whose ids are not in `ids`, in their order in `s`. */
  function Exclude(s: seq<Video>, ids: set<string>): seq<Video>
  {
    if s == [] then []
    else (if s[0].id in ids then [] else [s[0]]) + Exclude(s[1..], ids)
  }

  /** Exactly the videos of `s` without an excluded id remain. */
  lemma {:induction false} ExcludeMembers(s: seq<Video>, ids: set<string>)
    ensures forall v :: v in Exclude(s, ids) <==> v in s && v.id !in ids
  {
    if s != [] {
      ExcludeMembers(s[1..], ids);
      assert s == [s[0]] + s[1..];
    }
  }

  /** Excluding an id that no video of `s` carries changes nothing. */
  lemma {:induction false} ExcludeUnaffected(s: seq<Video>, ids: set<string>, k: string)
    requires forall v :: v in s ==> v.id != k
    ensures Exclude(s, ids + {k}) == Exclude(s, ids)
  {
    if s != [] {
      assert s[0] in s;
      assert forall v :: v in s[1..] ==> v in s;
      ExcludeUnaffected(s[1..], ids, k);
    }
  }

  /** Excluding the id of the first video, which no later video carries,
      drops just that video. */
  lemma ExcludeHead(s: seq<Video>, ids: set<string>)
    requires DistinctIds(s) && s != [] && s[0].id !in ids
    ensures Exclude(s, ids) == [s[0]] + Exclude(s[1..], ids)
    ensures Exclude(s, ids + {s[0].id}) == Exclude(s[1..], ids)
  {
    var tail := s[1..];
    forall w | w in tail ensures w.id != s[0].id {
      var j :| 0 <= j < |tail| && tail[j] == w;
      assert s[j + 1] == w;
    }
    ExcludeUnaffected(tail, ids, s[0].id);
  }

  /** The step past a first video whose id differs from the removed one. */
  lemma ExcludeStepPast(s: seq<Video>, ids: set<string>, v: Video)
    requires s != [] && s[0].id != v.id
    requires RemoveFirst(Exclude(s[1..], ids), v) == Exclude(s[1..], ids + {v.id})
    ensures RemoveFirst(Exclude(s, ids), v) == Exclude(s, ids + {v.id})
  {
    var e := Exclude(s[1..], ids);
    var e' := Exclude(s[1..], ids + {v.id});
    assert (s[0].id in ids + {v.id}) == (s[0].id in ids);
    if s[0].id in ids {
      assert Exclude(s, ids) == e;
      assert Exclude(s, ids + {v.id}) == e';
    } else {
      assert Exclude(s, ids) == [s[0]] + e;
      assert Exclude(s, ids + {v.id}) == [s[0]] + e';
      RemoveFirstSkip(s[0], e, v);
    }
  }

  /** One step of removing the flagged videos: taking the video `v` out of
      the list so far is the same as excluding its id as well. */
  lemma {:induction false} ExcludeStep(s: seq<Video>, ids: set<string>, v: Video)
    requires DistinctIds(s) && v in s && v.id !in ids
    ensures RemoveFirst(Exclude(s, ids), v) == Exclude(s, ids + {v.id})
  {
    var tail := s[1..];
    if s[0] == v {
      ExcludeHead(s, ids);
      assert ([v] + Exclude(tail, ids))[1..] == Exclude(tail, ids);
    } else {
      var j :| 0 <= j < |s| && s[j] == v;
      assert j > 0 && s[0].id != v.id;
      assert tail[j - 1] == v;
      DistinctTail(s);
      ExcludeStep(tail, ids, v);
      ExcludeStepPast(s, ids, v);
    }
  }

  /** Nothing is left exactly when every video has an excluded id. */
  lemma ExcludeEmpty(s: seq<Video>, ids: set<string>)
    ensures Exclude(s, ids) == [] <==> forall v :: v in s ==> v.id in ids
  {
    ExcludeMembers(s, ids);
    if Exclude(s, ids) != [] {
      assert Exclude(s, ids)[0] in Exclude(s, ids);
    }
  }
}
