/** What the two searches collect, and how the answer to the
    "play any of the above?" prompt selects a result. */
module Search {
  import opened Collections
  import opened Text
  import opened Videos

  /** The title contains the term, both lower-cased. */
  predicate TitleHit(v: Video, term: string)
  {
    Contains(Lower(v.title), Lower(term))
  }

  /** The tag contains the term, both lower-cased. */
  predicate TagHit(tag: string, term: string)
  {
    Contains(Lower(tag), Lower(term))
  }

  /** The unflagged videos of `s` whose title matches, in the order of `s`. */
  function TitleMatches(s: seq<Video>, term: string, flagged: map<string, string>): seq<Video>
  {
    if s == [] then []
    else
      var last := s[|s| - 1];
      TitleMatches(s[..|s| - 1], term, flagged)
        + (if TitleHit(last, term) && last.id !in flagged then [last] else [])
  }

  /** How many of the tags match the term. */
  function TagCount(tags: seq<string>, term: string): (n: nat)
    ensures n <= |tags|
  {
    if tags == [] then 0
    else TagCount(tags[..|tags| - 1], term) + (if TagHit(tags[|tags| - 1], term) then 1 else 0)
  }

  /** `n` copies of `v`. */
  function Repeat(v: Video, n: nat): (r: seq<Video>)
    ensures |r| == n && forall w :: w in r ==> w == v
  {
    if n == 0 then [] else Repeat(v, n - 1) + [v]
  }

  /** How often the tag search adds `v`: once per matching tag, unless it is flagged. */
  function TagHits(v: Video, term: string, flagged: map<string, string>): nat
  {
    if v.id in flagged then 0 else TagCount(v.tags, term)
  }

  /** The tag search's collection: every video of `s`, in order, once per matching tag. */
  function TagMatches(s: seq<Video>, term: string, flagged: map<string, string>): seq<Video>
  {
    if s == [] then []
    else
      var last := s[|s| - 1];
      TagMatches(s[..|s| - 1], term, flagged) + Repeat(last, TagHits(last, term, flagged))
  }

  /** Exactly the unflagged videos of `s` whose title matches are collected. */
  lemma {:induction false} TitleMatchesMembers(s: seq<Video>, term: string, flagged: map<string, string>)
    ensures forall v :: v in TitleMatches(s, term, flagged) <==> v in s && TitleHit(v, term) && v.id !in flagged
  {
    if s != [] {
      var init := s[..|s| - 1];
      TitleMatchesMembers(init, term, flagged);
      SplitLast(s);
    }
  }

  /** Each video is collected as often as it occurs in `s`, if it matches, and never otherwise. */
  lemma {:induction false} TitleMatchesCount(s: seq<Video>, term: string, flagged: map<string, string>, v: Video)
    ensures multiset(TitleMatches(s, term, flagged))[v]
         == if TitleHit(v, term) && v.id !in flagged then multiset(s)[v] else 0
  {
    if s != [] {
      var init := s[..|s| - 1];
      TitleMatchesCount(init, term, flagged, v);
      SplitLast(s);
    }
  }

  /** Collecting keeps the order of `s`, so a sorted input gives sorted results. */
  lemma {:induction false} TitleMatchesSorted(s: seq<Video>, term: string, flagged: map<string, string>)
    requires SortedByTitle(s)
    ensures SortedByTitle(TitleMatches(s, term, flagged))
  {
    if s != [] {
      var init := s[..|s| - 1];
      var last := s[|s| - 1];
      var r := TitleMatches(init, term, flagged);
      TitleMatchesSorted(init, term, flagged);
      TitleMatchesMembers(init, term, flagged);
      forall i | 0 <= i < |r| ensures TitleLe(r[i], last) {
        assert r[i] in init;
        var k :| 0 <= k < |init| && init[k] == r[i];
        assert s[k] == r[i];
      }
    }
  }

  /** Some tag matches exactly when the count is positive. */
  lemma {:induction false} TagCountPositive(tags: seq<string>, term: string)
    ensures TagCount(tags, term) > 0 <==> exists t :: t in tags && TagHit(t, term)
  {
    if tags != [] {
      var init := tags[..|tags| - 1];
      TagCountPositive(init, term);
      SplitLast(tags);
    }
  }

  /** n copies of `v` hold `v` n times and no other video. */
  lemma {:induction false} RepeatCount(v: Video, n: nat, w: Video)
    ensures multiset(Repeat(v, n))[w] == if w == v then n else 0
  {
    if n > 0 {
      RepeatCount(v, n - 1, w);
    }
  }

  /** The tag search collects exactly the unflagged videos of `s` with a matching tag. */
  lemma {:induction false} TagMatchesMembers(s: seq<Video>, term: string, flagged: map<string, string>)
    ensures forall v :: v in TagMatches(s, term, flagged) <==>
      v in s && v.id !in flagged && exists t :: t in v.tags && TagHit(t, term)
  {
    if s != [] {
      var init := s[..|s| - 1];
      var last := s[|s| - 1];
      TagMatchesMembers(init, term, flagged);
      TagCountPositive(last.tags, term);
      SplitLast(s);
      assert last in Repeat(last, TagHits(last, term, flagged)) <==> TagHits(last, term, flagged) > 0;
    }
  }

  /** A video is collected once per matching tag for each time it occurs in
      `s`: the tag search repeats a video that has several matching tags. */
  lemma {:induction false} TagMatchesCount(s: seq<Video>, term: string, flagged: map<string, string>, v: Video)
    ensures multiset(TagMatches(s, term, flagged))[v] == multiset(s)[v] * TagHits(v, term, flagged)
  {
    if s != [] {
      var init := s[..|s| - 1];
      TagMatchesCount(init, term, flagged, v);
      TagMatchesCountStep(s, term, flagged, v);
      CountStep(multiset(TagMatches(init, term, flagged))[v], multiset(init)[v],
        TagHits(v, term, flagged), multiset(TagMatches(s, term, flagged))[v]
          - multiset(TagMatches(init, term, flagged))[v], s[|s| - 1] == v);
    }
  }

  /** One video more at the end of `s` adds its hits to its count. */
  lemma TagMatchesCountStep(s: seq<Video>, term: string, flagged: map<string, string>, v: Video)
    requires s != []
    ensures var last := s[|s| - 1];
      && multiset(TagMatches(s, term, flagged))[v]
         == multiset(TagMatches(s[..|s| - 1], term, flagged))[v] + (if last == v then TagHits(v, term, flagged) else 0)
      && multiset(s)[v] == multiset(s[..|s| - 1])[v] + (if last == v then 1 else 0)
  {
    var init := s[..|s| - 1];
    var last := s[|s| - 1];
    RepeatCount(last, TagHits(last, term, flagged), v);
    SplitLast(s);
  }

  /** The arithmetic of one step: `m` earlier occurrences each counted `h`
      times, and one more occurrence when `same`. */
  lemma CountStep(c: nat, m: nat, h: nat, r: nat, same: bool)
    requires c == m * h && r == (if same then h else 0)
    ensures c + r == (m + (if same then 1 else 0)) * h
  {
    if same {
      assert (m + 1) * h == m * h + h;
    }
  }

  /** Collecting keeps the order of `s`, so a sorted input gives sorted results. */
  lemma {:induction false} TagMatchesSorted(s: seq<Video>, term: string, flagged: map<string, string>)
    requires SortedByTitle(s)
    ensures SortedByTitle(TagMatches(s, term, flagged))
  {
    if s != [] {
      var init := s[..|s| - 1];
      var last := s[|s| - 1];
      var r := TagMatches(init, term, flagged);
      var tail := Repeat(last, TagHits(last, term, flagged));
      TagMatchesSorted(init, term, flagged);
      TagMatchesMembers(init, term, flagged);
      LessIrreflexive(last.title);
      forall i | 0 <= i < |r| ensures TitleLe(r[i], last) {
        assert r[i] in init;
        var k :| 0 <= k < |init| && init[k] == r[i];
        assert s[k] == r[i];
      }
      forall i, j | 0 <= i < j < |r + tail| ensures TitleLe((r + tail)[i], (r + tail)[j]) {
        if j >= |r| {
          assert (r + tail)[j] in tail;
          if i >= |r| {
            assert (r + tail)[i] in tail;
          }
        }
      }
    }
  }

  /** Every title result is an unflagged video of the library. */
  lemma TitleMatchesPlayable(library: seq<Video>, term: string, flagged: map<string, string>)
    ensures forall v :: v in TitleMatches(SortByTitle(library), term, flagged) ==>
      v in library && v.id !in flagged
  {
    TitleMatchesMembers(SortByTitle(library), term, flagged);
    forall v | v in SortByTitle(library) ensures v in library {
      assert v in multiset(SortByTitle(library));
    }
  }

  /** Every tag result is an unflagged video of the library. */
  lemma TagMatchesPlayable(library: seq<Video>, term: string, flagged: map<string, string>)
    ensures forall v :: v in TagMatches(SortByTitle(library), term, flagged) ==>
      v in library && v.id !in flagged
  {
    TagMatchesMembers(SortByTitle(library), term, flagged);
    forall v | v in SortByTitle(library) ensures v in library {
      assert v in multiset(SortByTitle(library));
    }
  }

  /** A video whose two tags both contain the term is listed twice. */
  lemma TagMatchesRepeatsVideo()
    ensures var cats := Video("cats_id", "Cats", ["#cat", "#cats"]);
      TagMatches([cats], "#cat", map[]) == [cats, cats]
  {
    var cats := Video("cats_id", "Cats", ["#cat", "#cats"]);
    assert Lower("#cat") == "#cat" && Lower("#cats") == "#cats";
    assert Contains("#cat", "#cat");
    assert "#cats"[..4] == "#cat";
    assert Contains("#cats", "#cat");
    assert TagCount(["#cat", "#cats"], "#cat") == 2 by {
      assert ["#cat", "#cats"][..1] == ["#cat"];
      assert ["#cat"][..0] == [];
    }
    assert [cats][..0] == [];
  }

  /** The 0-based position an answer selects: an integer answer n with
      1 <= n <= count picks result n - 1; anything else picks nothing. */
  function SelectionIndex(answer: Option<int>, count: nat): (r: Option<nat>)
    ensures r.Some? <==> answer.Some? && 1 <= answer.value <= count
    ensures r.Some? ==> r.value < count && r.value + 1 == answer.value
  {
    if answer.Some? && 1 <= answer.value <= count then Some(answer.value - 1) else None
  }

  /** The guard as written: `hasNextInt()` accepts only a 32-bit answer,
      `nextInt() - 1` wraps in 32-bit arithmetic, and the place is compared
      only with the upper bound, so a negative place gets through. */
  function SelectionIndexAsWritten(answer: Option<int>, count: nat): (r: Option<int>)
    ensures r.Some? ==> r.value < count
    ensures answer.None? || !(-0x8000_0000 <= answer.value < 0x8000_0000) ==> r.None?
    ensures answer.Some? && -0x8000_0000 < answer.value < 0x8000_0000 ==>
      (r.Some? <==> answer.value - 1 < count) && (r.Some? ==> r.value == answer.value - 1)
    ensures answer == Some(-0x8000_0000) ==>
      (r.Some? <==> 0x7FFF_FFFF < count) && (r.Some? ==> r.value == 0x7FFF_FFFF)
  {
    if answer.None? || !(-0x8000_0000 <= answer.value < 0x8000_0000) then None
    else
      var place := if answer.value == -0x8000_0000 then 0x7FFF_FFFF else answer.value - 1;
      if place < count then Some(place) else None
  }

  /** The guard as written lets every answer from -2^31 + 1 to 0 through,
      as a negative place outside every list; the corrected guard rejects them. */
  lemma AsWrittenSelectsOutOfRange(answer: int, count: nat)
    requires -0x8000_0000 < answer <= 0
    ensures SelectionIndexAsWritten(Some(answer), count) == Some(answer - 1)
    ensures answer - 1 < 0
    ensures SelectionIndex(Some(answer), count) == None
  {
  }

  /** Within the range the source intends, the corrected guard agrees with the written one. */
  lemma SelectionAgreesInRange(answer: int, count: nat)
    requires 1 <= answer <= count && answer < 0x8000_0000
    ensures SelectionIndexAsWritten(Some(answer), count) == Some(answer - 1)
    ensures SelectionIndex(Some(answer), count) == Some(answer - 1)
  {
  }
}
