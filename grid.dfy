/** The library grid's search (`Grid`): which games are shown for a filter,
    and which empty state appears when none are. */
module Grid {
  import opened Text

  /** A library entry as the front end receives it. */
  datatype Game = Game(serial: string, title: string, size: int, coverUrl: string)

  /** What the grid renders. */
  datatype View = Cards(games: seq<Game>) | GotGames | NoMatches

  /** The test inside `games.filter`: no filter (null or empty) shows every
      game, otherwise the lower-cased title must contain the lower-cased filter. */
  function Shows(filter: Option<string>): Game -> bool {
    (g: Game) => filter.None? || filter.value == [] || Contains(Lower(g.title), Lower(filter.value))
  }

  /** `filteredGames`. */
  function Visible(games: seq<Game>, filter: Option<string>): seq<Game> {
    Filter(games, Shows(filter))
  }

  /** A null or empty filter shows every game, in the library's order. */
  lemma NoFilterShowsAll(games: seq<Game>, filter: Option<string>)
    requires filter.None? || filter.value == []
    ensures Visible(games, filter) == games
  {
    FilterKeepsAll(games, Shows(filter));
  }

  /** The lower-cased filter occurs somewhere in the lower-cased title. */
  ghost predicate TitleMatches(g: Game, f: string) {
    exists k: nat :: OccursAt(Lower(g.title), Lower(f), k)
  }

  /** For a non-empty filter the test is exactly an occurrence of the filter in the title. */
  lemma ShowsIff(g: Game, f: string)
    requires f != []
    ensures Shows(Some(f))(g) <==> TitleMatches(g, f)
  {
    ContainsIff(Lower(g.title), Lower(f));
  }

  /** Otherwise exactly the games whose lower-cased title has the lower-cased
      filter at some position are shown, each as often as in the library, in
      the library's order. */
  lemma VisibleExactly(games: seq<Game>, more: seq<Game>, f: string)
    requires f != []
    ensures forall i :: 0 <= i < |Visible(games, Some(f))| ==> TitleMatches(Visible(games, Some(f))[i], f)
    ensures forall g :: g in games ==>
              multiset(Visible(games, Some(f)))[g] == if TitleMatches(g, f) then multiset(games)[g] else 0
    ensures Visible(games + more, Some(f)) == Visible(games, Some(f)) + Visible(more, Some(f))
  {
    var v := Visible(games, Some(f));
    forall i | 0 <= i < |v| ensures TitleMatches(v[i], f) {
      ShowsIff(v[i], f);
    }
    forall g | g in games
      ensures multiset(v)[g] == if TitleMatches(g, f) then multiset(games)[g] else 0
    {
      FilterMultiset(games, Shows(Some(f)), g);
      ShowsIff(g, f);
    }
    FilterAppend(games, more, Shows(Some(f)));
  }

  /** Filters that differ only in letter case show the same games. */
  lemma CaseInsensitive(games: seq<Game>, f1: string, f2: string)
    requires Lower(f1) == Lower(f2)
    ensures Visible(games, Some(f1)) == Visible(games, Some(f2))
  {
    FilterSameVerdict(games, Shows(Some(f1)), Shows(Some(f2)));
  }

  /** The grid's choice: cards when something is visible, otherwise "Got Games?"
      for an empty library and "No matches found" for a filter that hides every game. */
  function Render(games: seq<Game>, filter: Option<string>): (v: View)
    ensures games == [] ==> v == GotGames
    ensures v == NoMatches <==> games != [] && Visible(games, filter) == []
    ensures v.Cards? ==> v.games == Visible(games, filter) && v.games != []
  {
    var shown := Visible(games, filter);
    if |shown| > 0 then Cards(shown)
    else if |games| == 0 then GotGames
    else NoMatches
  }
}
