/** The "All Surah" catalog: the fetched surah list, the lookup of the day's
    surah in it, and the two filters (free-text search and mood), each
    recomputed from the full list on every input event. */
module Catalog {
  import opened Options
  import opened JsText

  /** A surah's metadata as the `/surah` endpoint returns it. */
  datatype SurahMeta = SurahMeta(
    number: int,
    englishName: string,
    name: string,
    numberOfAyahs: int,
    revelationType: string)

  // ----- order-preserving filtering -----

  /** `r` is `xs` with some elements dropped and the rest in their order. */
  ghost predicate IsSublist<T>(r: seq<T>, xs: seq<T>)
    decreases |xs|
  {
    if r == [] then true
    else if xs == [] then false
    else (r[0] == xs[0] && IsSublist(r[1..], xs[1..])) || IsSublist(r, xs[1..])
  }

  /** `xs.filter(keep)`: exactly the elements `keep` accepts, every copy of
      them, in their original order. */
  function Filter(xs: seq<SurahMeta>, keep: SurahMeta -> bool): (r: seq<SurahMeta>)
    ensures IsSublist(r, xs)
    ensures forall x :: multiset(r)[x] == if keep(x) then multiset(xs)[x] else 0
    ensures forall x :: x in r <==> x in xs && keep(x)
  {
    if xs == [] then []
    else
      assert xs == [xs[0]] + xs[1..];
      if keep(xs[0]) then [xs[0]] + Filter(xs[1..], keep) else Filter(xs[1..], keep)
  }

  /** A filter that rejects nothing returns the list itself. */
  lemma {:induction false} FilterKeepsAll(xs: seq<SurahMeta>, keep: SurahMeta -> bool)
    requires forall x :: x in xs ==> keep(x)
    ensures Filter(xs, keep) == xs
    decreases |xs|
  {
    if xs != [] {
      FilterKeepsAll(xs[1..], keep);
    }
  }

  /** Filtering by a stronger condition selects a sublist of filtering by a
      weaker one. */
  lemma {:induction false} FilterMonotone(xs: seq<SurahMeta>, strong: SurahMeta -> bool, weak: SurahMeta -> bool)
    requires forall x :: strong(x) ==> weak(x)
    ensures IsSublist(Filter(xs, strong), Filter(xs, weak))
    decreases |xs|
  {
    if xs != [] {
      FilterMonotone(xs[1..], strong, weak);
      var s, w := Filter(xs[1..], strong), Filter(xs[1..], weak);
      if strong(xs[0]) {
        assert ([xs[0]] + s)[1..] == s;
        assert ([xs[0]] + w)[1..] == w;
      } else if weak(xs[0]) {
        assert ([xs[0]] + w)[1..] == w;
        if s != [] {
          assert IsSublist(s, ([xs[0]] + w)[1..]);
        }
      }
    }
  }

  // ----- lookup of the daily surah -----

  /** `surahList.find(s => s.number === n)`: the first entry with that number,
      `None` (JavaScript's `undefined`) when there is none. */
  function FindSurah(list: seq<SurahMeta>, n: int): (r: Option<SurahMeta>)
    ensures r.None? <==> forall i :: 0 <= i < |list| ==> list[i].number != n
    ensures r.Some? ==> r.value.number == n && r.value in list
    ensures r.Some? ==> exists i :: 0 <= i < |list| && list[i] == r.value
                                    && forall j :: 0 <= j < i ==> list[j].number != n
  {
    if list == [] then None
    else if list[0].number == n then Some(list[0])
    else
      var rest := FindSurah(list[1..], n);
      assert forall i :: 1 <= i < |list| ==> list[i] == list[1..][i - 1];
      if rest.Some? then
        var k :| 0 <= k < |list[1..]| && list[1..][k] == rest.value
                 && forall j :: 0 <= j < k ==> list[1..][j].number != n;
        assert list[k + 1] == rest.value && forall j :: 0 <= j < k + 1 ==> list[j].number != n;
        rest
      else
        rest
  }

  // ----- search -----

  /** `searchInput.value.trim().toLowerCase()`. */
  function NormalizeQuery(raw: string): string {
    ToLower(Trim(raw))
  }

  /** The search predicate: the query occurs in the lower-cased English name,
      in the lower-cased native name, or in the decimal number. */
  predicate MatchesQuery(s: SurahMeta, q: string) {
    Includes(ToLower(s.englishName), q) || Includes(ToLower(s.name), q) || Includes(DecimalString(s.number), q)
  }

  /** The search handler's result, always filtered from the full list. */
  function SearchFilter(list: seq<SurahMeta>, raw: string): seq<SurahMeta> {
    var q := NormalizeQuery(raw);
    Filter(list, s => MatchesQuery(s, q))
  }

  /** Search keeps exactly the matching surahs, in list order. */
  lemma SearchSelects(list: seq<SurahMeta>, raw: string)
    ensures IsSublist(SearchFilter(list, raw), list)
    ensures forall s :: s in SearchFilter(list, raw) <==> s in list && MatchesQuery(s, NormalizeQuery(raw))
  {
  }

  /** Queries that differ only in the case of ASCII letters find the same surahs. */
  lemma SearchIgnoresCase(list: seq<SurahMeta>, a: string, b: string)
    requires SameUpToCase(a, b)
    ensures SearchFilter(list, a) == SearchFilter(list, b)
  {
    TrimLowerUpToCase(a, b);
  }

  /** White space around the query changes nothing. */
  lemma SearchIgnoresSurroundingSpace(list: seq<SurahMeta>, before: string, raw: string, after: string)
    requires AllSpaces(before) && AllSpaces(after)
    ensures SearchFilter(list, before + raw + after) == SearchFilter(list, raw)
  {
    TrimIgnoresPadding(before, raw, after);
  }

  /** An empty (or all-blank) query shows the whole list. */
  lemma SearchEmptyQueryKeepsAll(list: seq<SurahMeta>, raw: string)
    requires Trim(raw) == ""
    ensures SearchFilter(list, raw) == list
  {
    var q := NormalizeQuery(raw);
    assert q == "";
    FilterKeepsAll(list, s => MatchesQuery(s, q));
  }

  /** The query "2" finds every surah whose number ends in 2. */
  lemma SearchByLastDigit(s: SurahMeta)
    requires s.number >= 0 && s.number % 10 == 2
    ensures MatchesQuery(s, NormalizeQuery("2"))
  {
    assert NormalizeQuery("2") == "2";
    IncludesLastChar(DecimalString(s.number));
  }

  /** The number is matched as a substring of its decimal form: "2" finds
      surahs 2, 12 and 20, and not surah 3. */
  lemma SearchByNumberExamples(english: string, native: string)
    requires !Includes(ToLower(english), "2") && !Includes(ToLower(native), "2")
    ensures MatchesQuery(SurahMeta(2, english, native, 286, "Medinan"), "2")
    ensures MatchesQuery(SurahMeta(12, english, native, 111, "Meccan"), "2")
    ensures MatchesQuery(SurahMeta(20, english, native, 135, "Meccan"), "2")
    ensures !MatchesQuery(SurahMeta(3, english, native, 200, "Medinan"), "2")
  {
    assert DecimalString(12) == "12";
    assert Includes("12"[1..], "2");
    assert DecimalString(20) == "20";
    assert DecimalString(3) == "3";
    assert !Includes("3"[1..], "2");
  }

  // ----- mood -----

  predicate IsCalm(s: SurahMeta) { s.numberOfAyahs <= 6 }
  predicate IsStudy(s: SurahMeta) { s.numberOfAyahs >= 50 }
  predicate IsComfort(s: SurahMeta) { ToLower(s.revelationType) == "meccan" && s.numberOfAyahs <= 20 }
  predicate IsShort(s: SurahMeta) { s.numberOfAyahs <= 3 }

  /** The mood handler's result, always filtered from the full list; an empty
      or unknown selection shows the full list. */
  function MoodFilter(list: seq<SurahMeta>, mood: string): seq<SurahMeta> {
    if mood == "calm" then Filter(list, IsCalm)
    else if mood == "study" then Filter(list, IsStudy)
    else if mood == "comfort" then Filter(list, IsComfort)
    else if mood == "short" then Filter(list, IsShort)
    else list
  }

  /** Each mood keeps exactly the surahs of its bucket, in list order. */
  lemma MoodSelects(list: seq<SurahMeta>, mood: string)
    ensures IsSublist(MoodFilter(list, mood), list)
    ensures mood == "calm" ==> forall s :: s in MoodFilter(list, mood) <==> s in list && s.numberOfAyahs <= 6
    ensures mood == "study" ==> forall s :: s in MoodFilter(list, mood) <==> s in list && s.numberOfAyahs >= 50
    ensures mood == "comfort" ==> forall s :: s in MoodFilter(list, mood) <==>
              s in list && ToLower(s.revelationType) == "meccan" && s.numberOfAyahs <= 20
    ensures mood == "short" ==> forall s :: s in MoodFilter(list, mood) <==> s in list && s.numberOfAyahs <= 3
    ensures mood !in {"calm", "study", "comfort", "short"} ==> MoodFilter(list, mood) == list
  {
    if mood !in {"calm", "study", "comfort", "short"} {
      SublistOfItself(list);
    }
  }

  lemma {:induction false} SublistOfItself<T>(xs: seq<T>)
    ensures IsSublist(xs, xs)
    decreases |xs|
  {
    if xs != [] {
      SublistOfItself(xs[1..]);
    }
  }

  /** Every "short" surah is also a "calm" one, in the same order. */
  lemma ShortWithinCalm(list: seq<SurahMeta>)
    ensures IsSublist(MoodFilter(list, "short"), MoodFilter(list, "calm"))
  {
    FilterMonotone(list, IsShort, IsCalm);
  }

  /** "study" over ayah counts 7, 55, 3, 50 keeps the surahs of 55 and 50 ayahs. */
  lemma StudyExample()
    ensures var a := SurahMeta(1, "A", "A", 7, "Meccan");
            var b := SurahMeta(2, "B", "B", 55, "Meccan");
            var c := SurahMeta(3, "C", "C", 3, "Meccan");
            var d := SurahMeta(4, "D", "D", 50, "Medinan");
            MoodFilter([a, b, c, d], "study") == [b, d]
  {
  }

  // ----- the catalog view -----

  /** The catalog page: `base` is the surah list captured when the page was
      shown, `shown` the list currently rendered. */
  class CatalogView {
    const base: seq<SurahMeta>
    var shown: seq<SurahMeta>

    /** `renderList(surahList)`: the page opens on the full list. */
    constructor (surahList: seq<SurahMeta>)
      ensures base == surahList && shown == surahList
    {
      base := surahList;
      shown := surahList;
    }

    /** The `input` handler of the search box. The result depends only on the
        full list and the current text, never on what was shown before. */
    method OnSearchInput(value: string)
      modifies this
      ensures shown == SearchFilter(base, value)
    {
      shown := SearchFilter(base, value);
    }

    /** The `change` handler of the mood selector; it discards any active
        search rather than composing with it. */
    method OnMoodChange(value: string)
      modifies this
      ensures shown == MoodFilter(base, value)
    {
      shown := MoodFilter(base, value);
    }
  }
}
