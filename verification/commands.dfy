/**
 * The command palette (`js/commands.js`): fuzzy matching and scoring of
 * commands against a query, the most-recently-used list, keyboard selection
 * with wrap-around, grouping by category and running the selected command.
 *
 * A command's action is outside the model: running a command is recorded as
 * the id it ran.  The recent-command list that the palette keeps in storage
 * is passed in and handed back.
 */
module Commands {
  import opened Wrappers
  import Strings
  import Sorting
  import Lists

  /** Score bonuses of `fuzzySearch`. */
  const ExactTitleBonus := 100
  const TitleContainsBonus := 50
  const DescriptionContainsBonus := 25
  const CategoryContainsBonus := 10
  const TitleFuzzyBonus := 20
  const DescriptionFuzzyBonus := 10

  /** Recent commands shown when the query is blank, and recent ids kept. */
  const RecentShown := 5
  const RecentKept := 10

  datatype Command = Command(id: string, title: string, description: string, category: string)

  /** A search result: the command and its score. */
  datatype ScoredCommand = ScoredCommand(command: Command, score: int)

  /** An entry of the result list: a search hit, a recent command, or a plain command. */
  datatype Entry = Scored(command: Command, score: int) | Recent(command: Command) | Plain(command: Command)

  datatype Palette = Palette(isOpen: bool, selectedIndex: nat, filtered: seq<Entry>, all: seq<Command>)

  // ---------------------------------------------------------------------------
  // Fuzzy matching
  // ---------------------------------------------------------------------------

  /** `idx` lists, in increasing order, positions of `t` that spell out `q`. */
  ghost predicate Embeds(q: string, t: string, idx: seq<int>) {
    && |idx| == |q|
    && (forall k :: 0 <= k < |idx| ==> 0 <= idx[k] < |t| && t[idx[k]] == q[k])
    && (forall j, k :: 0 <= j < k < |idx| ==> idx[j] < idx[k])
  }

  /** `q` can be read off `t` left to right, skipping characters. */
  ghost predicate IsSubsequence(q: string, t: string) {
    exists idx :: Embeds(q, t, idx)
  }

  /**
   * `fuzzyMatch(query, text)`: scan the text once, advancing in the query
   * whenever the current characters agree; the query matches when it is used up.
   */
  function FuzzyMatch(q: string, t: string): bool {
    if q == [] then true
    else if t == [] then false
    else if t[0] == q[0] then FuzzyMatch(q[1..], t[1..])
    else FuzzyMatch(q, t[1..])
  }

  ghost function Shift(idx: seq<int>, d: int): (r: seq<int>)
    ensures |r| == |idx| && forall k :: 0 <= k < |idx| ==> r[k] == idx[k] + d
  {
    seq(|idx|, k requires 0 <= k < |idx| => idx[k] + d)
  }

  /** A successful greedy scan finds an embedding. */
  lemma {:induction false} FuzzyMatchEmbeds(q: string, t: string) returns (idx: seq<int>)
    requires FuzzyMatch(q, t)
    ensures Embeds(q, t, idx)
  {
    if q == [] {
      idx := [];
    } else if t[0] == q[0] {
      var rest := FuzzyMatchEmbeds(q[1..], t[1..]);
      idx := [0] + Shift(rest, 1);
      EmbedsTake(q, t, rest);
    } else {
      var rest := FuzzyMatchEmbeds(q, t[1..]);
      idx := Shift(rest, 1);
      EmbedsSkip(q, t, rest);
    }
  }

  /** Matching the first characters extends an embedding of the rests. */
  lemma EmbedsTake(q: string, t: string, rest: seq<int>)
    requires q != [] && t != [] && t[0] == q[0] && Embeds(q[1..], t[1..], rest)
    ensures Embeds(q, t, [0] + Shift(rest, 1))
  {
    TakePositions(q, t, rest);
    TakeOrder(rest);
  }

  lemma TakePositions(q: string, t: string, rest: seq<int>)
    requires q != [] && t != [] && t[0] == q[0] && Embeds(q[1..], t[1..], rest)
    ensures var idx := [0] + Shift(rest, 1);
            |idx| == |q| && forall k :: 0 <= k < |idx| ==> 0 <= idx[k] < |t| && t[idx[k]] == q[k]
  {
    var idx := [0] + Shift(rest, 1);
    forall k | 0 < k < |idx| ensures 0 < idx[k] < |t| && t[idx[k]] == q[k] {
      assert idx[k] == rest[k - 1] + 1;
      assert t[1..][rest[k - 1]] == q[1..][k - 1];
    }
  }

  lemma TakeOrder(rest: seq<int>)
    requires forall k :: 0 <= k < |rest| ==> 0 <= rest[k]
    requires forall j, k :: 0 <= j < k < |rest| ==> rest[j] < rest[k]
    ensures var idx := [0] + Shift(rest, 1);
            forall j, k :: 0 <= j < k < |idx| ==> idx[j] < idx[k]
  {
    var idx := [0] + Shift(rest, 1);
    forall j, k | 0 <= j < k < |idx| ensures idx[j] < idx[k] {
      assert idx[k] == rest[k - 1] + 1;
      if j > 0 {
        assert idx[j] == rest[j - 1] + 1;
      }
    }
  }

  /** Skipping the text's first character shifts an embedding by one. */
  lemma EmbedsSkip(q: string, t: string, rest: seq<int>)
    requires t != [] && Embeds(q, t[1..], rest)
    ensures Embeds(q, t, Shift(rest, 1))
  {
    var idx := Shift(rest, 1);
    forall k | 0 <= k < |idx| ensures 0 <= idx[k] < |t| && t[idx[k]] == q[k] {
      assert t[1..][rest[k]] == q[k];
    }
  }

  /** Whenever an embedding exists, the greedy scan succeeds. */
  lemma {:induction false} EmbedsFuzzyMatch(q: string, t: string, idx: seq<int>)
    requires Embeds(q, t, idx)
    ensures FuzzyMatch(q, t)
    decreases |t|
  {
    if q != [] {
      assert 0 <= idx[0] < |t|;
      if t[0] == q[0] {
        var rest := Shift(idx[1..], -1);
        forall k | 0 <= k < |rest| ensures 0 <= rest[k] < |t| - 1 && t[1..][rest[k]] == q[1..][k] {
          assert idx[0] < idx[k + 1];
        }
        forall j, k | 0 <= j < k < |rest| ensures rest[j] < rest[k] {
          assert idx[j + 1] < idx[k + 1];
        }
        EmbedsFuzzyMatch(q[1..], t[1..], rest);
      } else {
        assert idx[0] != 0;
        var rest := Shift(idx, -1);
        forall k | 0 <= k < |rest| ensures 0 <= rest[k] < |t| - 1 && t[1..][rest[k]] == q[k] {
          if k > 0 { assert idx[0] < idx[k]; }
        }
        EmbedsFuzzyMatch(q, t[1..], rest);
      }
    }
  }

  /** The greedy scan decides exactly whether the query is a subsequence of the text. */
  lemma FuzzyMatchIsSubsequence(q: string, t: string)
    ensures FuzzyMatch(q, t) <==> IsSubsequence(q, t)
  {
    if FuzzyMatch(q, t) {
      var idx := FuzzyMatchEmbeds(q, t);
    }
    if IsSubsequence(q, t) {
      var idx :| Embeds(q, t, idx);
      EmbedsFuzzyMatch(q, t, idx);
    }
  }

  /** A query found as a contiguous slice is also found by the fuzzy scan. */
  lemma ContainedMatches(q: string, t: string)
    requires Strings.Contains(t, q)
    ensures FuzzyMatch(q, t)
  {
    Strings.ContainsIff(t, q);
    var a, b :| t == a + q + b;
    assert t[|a|..|a| + |q|] == q;
    SliceMatches(q, t, |a|);
  }

  lemma SliceMatches(q: string, t: string, off: nat)
    requires off + |q| <= |t| && t[off..off + |q|] == q
    ensures FuzzyMatch(q, t)
  {
    var idx := seq(|q|, k requires 0 <= k < |q| => off + k);
    forall k | 0 <= k < |idx| ensures 0 <= idx[k] < |t| && t[idx[k]] == q[k] {
      assert t[off..off + |q|][k] == t[off + k];
    }
    EmbedsFuzzyMatch(q, t, idx);
  }

  /** A text contains itself, so an exact title also earns the contains bonus. */
  lemma ContainsItself(s: string)
    ensures Strings.Contains(s, s)
  {
    Strings.ContainsIff(s, s);
    assert s == [] + s + [];
  }

  // ---------------------------------------------------------------------------
  // Scoring and searching
  // ---------------------------------------------------------------------------

  /** The score of a command for a lower-case query: the sum of the bonuses that apply. */
  function Score(query: string, c: Command): int {
    var title := Strings.ToLower(c.title);
    var description := Strings.ToLower(c.description);
    var category := Strings.ToLower(c.category);
    (if title == query then ExactTitleBonus else 0)
    + (if Strings.Contains(title, query) then TitleContainsBonus else 0)
    + (if Strings.Contains(description, query) then DescriptionContainsBonus else 0)
    + (if Strings.Contains(category, query) then CategoryContainsBonus else 0)
    + (if FuzzyMatch(query, title) then TitleFuzzyBonus else 0)
    + (if FuzzyMatch(query, description) then DescriptionFuzzyBonus else 0)
  }

  /**
   * A command scores at all exactly when the query is a subsequence of its
   * title or description, or occurs in its category; the score is at most
   * the sum of all bonuses, and an exact title match scores at least 170.
   */
  lemma ScoreMeaning(query: string, c: Command)
    ensures var title, description := Strings.ToLower(c.title), Strings.ToLower(c.description);
            (Score(query, c) > 0
             <==> IsSubsequence(query, title) || IsSubsequence(query, description)
                  || Strings.Contains(Strings.ToLower(c.category), query))
    ensures 0 <= Score(query, c) <= 215
    ensures Strings.ToLower(c.title) == query ==> Score(query, c) >= 170
  {
    var title, description := Strings.ToLower(c.title), Strings.ToLower(c.description);
    FuzzyMatchIsSubsequence(query, title);
    FuzzyMatchIsSubsequence(query, description);
    if title == query {
      ContainsItself(title);
    }
    if Strings.Contains(title, query) {
      ContainedMatches(query, title);
    }
    if Strings.Contains(description, query) {
      ContainedMatches(query, description);
    }
  }

  /** Every command with its score, in list order. */
  function ScoreAll(query: string, cmds: seq<Command>): (r: seq<ScoredCommand>)
    ensures |r| == |cmds|
    ensures forall i :: 0 <= i < |cmds| ==> r[i] == ScoredCommand(cmds[i], Score(query, cmds[i]))
  {
    seq(|cmds|, i requires 0 <= i < |cmds| => ScoredCommand(cmds[i], Score(query, cmds[i])))
  }

  /** The results with a positive score, in order (`filter(cmd => cmd.score > 0)`). */
  function Positive(xs: seq<ScoredCommand>): (r: seq<ScoredCommand>)
    ensures |r| <= |xs|
  {
    if xs == [] then []
    else (if xs[0].score > 0 then [xs[0]] else []) + Positive(xs[1..])
  }

  lemma {:induction false} PositiveMember(xs: seq<ScoredCommand>, x: ScoredCommand)
    ensures x in Positive(xs) <==> x in xs && x.score > 0
  {
    if xs != [] {
      PositiveMember(xs[1..], x);
      assert xs == [xs[0]] + xs[1..];
    }
  }

  /** The sort key of the highest-score-first order. */
  function ByScore(): ScoredCommand -> int {
    (s: ScoredCommand) => -s.score
  }

  /** `fuzzySearch(query, commands)`: the scoring commands, highest score first, ties in list order. */
  function FuzzySearch(query: string, cmds: seq<Command>): seq<ScoredCommand> {
    Sorting.SortBy(Positive(ScoreAll(query, cmds)), ByScore())
  }

  /** A result is exactly a command of the list, with its score, when that score is positive. */
  lemma FuzzySearchMember(query: string, cmds: seq<Command>, x: ScoredCommand)
    ensures x in FuzzySearch(query, cmds)
        <==> x.score > 0 && exists i :: 0 <= i < |cmds| && x == ScoredCommand(cmds[i], Score(query, cmds[i]))
  {
    var all := ScoreAll(query, cmds);
    assert x in FuzzySearch(query, cmds) <==> x in multiset(Positive(all));
    PositiveMember(all, x);
    if x in all {
      var i :| 0 <= i < |all| && all[i] == x;
    }
  }

  /** Results come in non-increasing order of score. */
  lemma FuzzySearchOrdered(query: string, cmds: seq<Command>)
    ensures var r := FuzzySearch(query, cmds);
            forall i, j :: 0 <= i < j < |r| ==> r[i].score >= r[j].score
  {
    var r := FuzzySearch(query, cmds);
    Sorting.SortBySorted(Positive(ScoreAll(query, cmds)), ByScore());
    forall i, j | 0 <= i < j < |r| ensures r[i].score >= r[j].score {
      assert ByScore()(r[i]) <= ByScore()(r[j]);
    }
  }

  /** Commands with equal scores keep their order in the command list. */
  lemma FuzzySearchStable(query: string, cmds: seq<Command>, k: int)
    ensures Sorting.KeyFilter(FuzzySearch(query, cmds), ByScore(), k)
         == Sorting.KeyFilter(Positive(ScoreAll(query, cmds)), ByScore(), k)
  {
    Sorting.SortByStable(Positive(ScoreAll(query, cmds)), ByScore(), k);
  }

  function AsEntries(results: seq<ScoredCommand>): (r: seq<Entry>)
    ensures |r| == |results|
    ensures forall i :: 0 <= i < |results| ==> r[i] == Scored(results[i].command, results[i].score)
  {
    seq(|results|, i requires 0 <= i < |results| => Scored(results[i].command, results[i].score))
  }

  /**
   * `search(query)`: a blank query shows the recent commands; any other is
   * lower-cased and searched, and the selection goes back to the first result.
   */
  function Search(p: Palette, query: string, recentIds: seq<string>): (r: Palette)
    ensures r.selectedIndex == 0 && r.all == p.all && r.isOpen == p.isOpen
    ensures Strings.Trim(query) == [] ==> r == ShowRecentCommands(p, recentIds)
    ensures Strings.Trim(query) != [] ==> r.filtered == AsEntries(FuzzySearch(Strings.ToLower(query), p.all))
  {
    if Strings.Trim(query) == [] then ShowRecentCommands(p, recentIds)
    else p.(filtered := AsEntries(FuzzySearch(Strings.ToLower(query), p.all)), selectedIndex := 0)
  }

  /** After a non-blank search every entry is a command of the palette with a positive score. */
  lemma SearchResults(p: Palette, query: string, recentIds: seq<string>, i: nat)
    requires Strings.Trim(query) != [] && i < |Search(p, query, recentIds).filtered|
    ensures var e := Search(p, query, recentIds).filtered[i];
            && e.Scored? && e.score > 0 && e.command in p.all
            && e.score == Score(Strings.ToLower(query), e.command)
  {
    var results := FuzzySearch(Strings.ToLower(query), p.all);
    assert results[i] in results;
    FuzzySearchMember(Strings.ToLower(query), p.all, results[i]);
  }

  /** A query of white space only searches nothing: it shows the same list as the empty query. */
  lemma SearchBlank(p: Palette, query: string, recentIds: seq<string>)
    requires Strings.AllSpace(query)
    ensures Search(p, query, recentIds) == Search(p, [], recentIds)
  {
    Strings.TrimEmptyIffAllSpace(query);
  }

  /**
   * A blank query lists the commands named by the recent ids, marked recent,
   * or every command when no recent id names one.
   */
  lemma SearchBlankShows(p: Palette, query: string, recentIds: seq<string>)
    requires Strings.Trim(query) == []
    ensures Search(p, query, recentIds).filtered
         == (if KnownIds(p.all, recentIds) == [] then AsPlain(p.all)
             else AsRecent(Lists.Take(Resolve(p.all, recentIds), RecentShown)))
  {
    var resolved := Resolve(p.all, recentIds);
    ResolveIds(p.all, recentIds);
    assert |resolved| == |Ids(resolved)| == |KnownIds(p.all, recentIds)|;
    if resolved != [] {
      assert Lists.Take(resolved, RecentShown)[0] == resolved[0];
    }
  }

  // ---------------------------------------------------------------------------
  // Recent commands
  // ---------------------------------------------------------------------------

  /** `allCommands.find(cmd => cmd.id === id)`. */
  function Find(cmds: seq<Command>, id: string): (r: Option<Command>)
    ensures r.Some? ==> r.value in cmds && r.value.id == id
    ensures r.None? <==> forall i :: 0 <= i < |cmds| ==> cmds[i].id != id
  {
    if cmds == [] then None
    else if cmds[0].id == id then Some(cmds[0])
    else Find(cmds[1..], id)
  }

  /** The commands the ids name, in id order, unknown ids dropped. */
  function Resolve(all: seq<Command>, ids: seq<string>): (r: seq<Command>)
    ensures |r| <= |ids|
  {
    if ids == [] then []
    else
      match Find(all, ids[0])
      case Some(c) => [c] + Resolve(all, ids[1..])
      case None => Resolve(all, ids[1..])
  }

  /** The ids some command has. */
  function KnownIds(all: seq<Command>, ids: seq<string>): seq<string> {
    if ids == [] then []
    else (if exists i :: 0 <= i < |all| && all[i].id == ids[0] then [ids[0]] else []) + KnownIds(all, ids[1..])
  }

  function Ids(cmds: seq<Command>): (r: seq<string>)
    ensures |r| == |cmds| && forall i :: 0 <= i < |cmds| ==> r[i] == cmds[i].id
  {
    seq(|cmds|, i requires 0 <= i < |cmds| => cmds[i].id)
  }

  /** Resolving keeps exactly the known ids, in order. */
  lemma {:induction false} ResolveIds(all: seq<Command>, ids: seq<string>)
    ensures Ids(Resolve(all, ids)) == KnownIds(all, ids)
  {
    if ids != [] {
      ResolveIds(all, ids[1..]);
      var tail := Resolve(all, ids[1..]);
      match Find(all, ids[0])
      case Some(c) =>
        assert Resolve(all, ids) == [c] + tail;
        assert Ids([c] + tail) == [c.id] + Ids(tail);
      case None =>
    }
  }

  function AsRecent(cmds: seq<Command>): (r: seq<Entry>)
    ensures |r| == |cmds| && forall i :: 0 <= i < |cmds| ==> r[i] == Recent(cmds[i])
  {
    seq(|cmds|, i requires 0 <= i < |cmds| => Recent(cmds[i]))
  }

  function AsPlain(cmds: seq<Command>): (r: seq<Entry>)
    ensures |r| == |cmds| && forall i :: 0 <= i < |cmds| ==> r[i] == Plain(cmds[i])
  {
    seq(|cmds|, i requires 0 <= i < |cmds| => Plain(cmds[i]))
  }

  /**
   * `showRecentCommands`: the first five recent ids that name a command,
   * marked recent; when none does, every command.
   */
  function ShowRecentCommands(p: Palette, recentIds: seq<string>): (r: Palette)
    ensures r.selectedIndex == 0 && r.all == p.all && r.isOpen == p.isOpen
    ensures |r.filtered| <= RecentShown || r.filtered == AsPlain(p.all)
  {
    var recent := Lists.Take(Resolve(p.all, recentIds), RecentShown);
    if |recent| > 0 then p.(filtered := AsRecent(recent), selectedIndex := 0)
    else p.(filtered := AsPlain(p.all), selectedIndex := 0)
  }

  /**
   * The recent entries shown are, in order, the commands named by the first
   * five known recent ids; with no known id every command is shown.
   */
  lemma ShowRecentMeaning(p: Palette, recentIds: seq<string>)
    ensures var r := ShowRecentCommands(p, recentIds);
            var known := KnownIds(p.all, recentIds);
            && (known == [] ==> r.filtered == AsPlain(p.all))
            && (known != [] ==> (&& |r.filtered| == |Lists.Take(known, RecentShown)|
                                 && forall i :: 0 <= i < |r.filtered| ==>
                                      (&& r.filtered[i].Recent? && r.filtered[i].command.id == known[i]
                                       && r.filtered[i].command in p.all)))
  {
    var resolved := Resolve(p.all, recentIds);
    ResolveIds(p.all, recentIds);
    assert |resolved| == |KnownIds(p.all, recentIds)|;
    var r := ShowRecentCommands(p, recentIds);
    forall i | 0 <= i < |r.filtered| && KnownIds(p.all, recentIds) != []
      ensures r.filtered[i].command.id == KnownIds(p.all, recentIds)[i] && r.filtered[i].command in p.all
    {
      assert r.filtered[i].command == resolved[i];
      assert Ids(resolved)[i] == resolved[i].id;
      ResolveFound(p.all, recentIds, i);
    }
  }

  lemma {:induction false} ResolveFound(all: seq<Command>, ids: seq<string>, i: nat)
    requires i < |Resolve(all, ids)|
    ensures Resolve(all, ids)[i] in all
  {
    if ids != [] {
      match Find(all, ids[0])
      case Some(c) =>
        if i > 0 { ResolveFound(all, ids[1..], i - 1); }
      case None =>
        ResolveFound(all, ids[1..], i);
    }
  }

  /** `recent.filter(x => x !== id)`. */
  function Without(ids: seq<string>, id: string): (r: seq<string>)
    ensures |r| <= |ids|
    ensures forall x :: x in r <==> x in ids && x != id
  {
    if ids == [] then []
    else (if ids[0] != id then [ids[0]] else []) + Without(ids[1..], id)
  }

  /** `trackRecentCommand(id)`: the id moves to the front, once, and at most ten ids are kept. */
  function TrackRecentCommand(recent: seq<string>, id: string): (r: seq<string>)
    ensures 1 <= |r| <= RecentKept && |r| <= |Without(recent, id)| + 1 && r[0] == id
    ensures r[1..] == Without(recent, id)[..|r| - 1]
    ensures |r| == (if |Without(recent, id)| + 1 < RecentKept then |Without(recent, id)| + 1 else RecentKept)
  {
    Lists.Take([id] + Without(recent, id), RecentKept)
  }

  /** The tracked id occurs exactly once in the new list. */
  lemma TrackRecentOnce(recent: seq<string>, id: string)
    ensures multiset(TrackRecentCommand(recent, id))[id] == 1
  {
    var r := TrackRecentCommand(recent, id);
    var kept := Without(recent, id)[..|r| - 1];
    assert r == [r[0]] + r[1..];
    PrefixWithout(recent, id, |r| - 1);
    assert multiset(r) == multiset{id} + multiset(kept);
  }

  /** With room to spare, no id is lost: the list holds the new id and all the old ones. */
  lemma TrackRecentKeeps(recent: seq<string>, id: string, x: string)
    requires |Without(recent, id)| < RecentKept
    ensures x in TrackRecentCommand(recent, id) <==> x == id || x in recent
  {
    var w := Without(recent, id);
    assert TrackRecentCommand(recent, id) == [id] + w;
  }

  /** Running the same command twice in a row leaves the list as after the first time. */
  lemma TrackRecentIdempotent(recent: seq<string>, id: string)
    ensures TrackRecentCommand(TrackRecentCommand(recent, id), id) == TrackRecentCommand(recent, id)
  {
    var r := TrackRecentCommand(recent, id);
    var w := Without(recent, id);
    var kept := w[..|r| - 1];
    assert r == [r[0]] + r[1..];
    PrefixWithout(recent, id, |r| - 1);
    WithoutAbsent(kept, id);
    assert Without(r, id) == kept by {
      assert r[1..] == kept;
      assert Without(r, id) == Without(r[1..], id);
    }
  }

  /** No prefix of a list with `id` removed contains `id`. */
  lemma PrefixWithout(ids: seq<string>, id: string, n: nat)
    requires n <= |Without(ids, id)|
    ensures id !in Without(ids, id)[..n]
  {
    var w := Without(ids, id);
    forall k | 0 <= k < n ensures w[..n][k] != id {
      assert w[..n][k] == w[k] && w[k] in w;
    }
  }

  lemma {:induction false} WithoutAbsent(ids: seq<string>, id: string)
    requires id !in ids
    ensures Without(ids, id) == ids
  {
    if ids != [] {
      WithoutAbsent(ids[1..], id);
      assert ids == [ids[0]] + ids[1..];
    }
  }

  ghost predicate NoDuplicates(ids: seq<string>) {
    forall i, j :: 0 <= i < j < |ids| ==> ids[i] != ids[j]
  }

  /** A recent list without duplicates stays without duplicates. */
  lemma TrackRecentNoDuplicates(recent: seq<string>, id: string)
    requires NoDuplicates(recent)
    ensures NoDuplicates(TrackRecentCommand(recent, id))
  {
    var r := TrackRecentCommand(recent, id);
    var w := Without(recent, id);
    WithoutNoDuplicates(recent, id);
    forall i, j | 0 <= i < j < |r| ensures r[i] != r[j] {
      assert r[j] == w[j - 1];
      assert r[j] in w;
      if i > 0 { assert r[i] == w[i - 1]; }
    }
  }

  lemma {:induction false} WithoutNoDuplicates(ids: seq<string>, id: string)
    requires NoDuplicates(ids)
    ensures NoDuplicates(Without(ids, id))
  {
    if ids != [] {
      var tail := ids[1..];
      assert NoDuplicates(tail) by {
        forall i, j | 0 <= i < j < |tail| ensures tail[i] != tail[j] {
          assert tail[i] == ids[i + 1] && tail[j] == ids[j + 1];
        }
      }
      WithoutNoDuplicates(tail, id);
      var w := Without(tail, id);
      if ids[0] != id {
        assert ids[0] !in tail by {
          forall k | 0 <= k < |tail| ensures tail[k] != ids[0] {
            assert tail[k] == ids[k + 1];
          }
        }
        var r := [ids[0]] + w;
        forall i, j | 0 <= i < j < |r| ensures r[i] != r[j] {
          assert r[j] == w[j - 1];
          assert r[j] in w;
          if i > 0 { assert r[i] == w[i - 1]; }
        }
      }
    }
  }

  // ---------------------------------------------------------------------------
  // Selection and execution
  // ---------------------------------------------------------------------------

  /** The selection points at an entry, or is 0 when there is none. */
  predicate ValidSelection(p: Palette) {
    if |p.filtered| == 0 then p.selectedIndex == 0 else p.selectedIndex < |p.filtered|
  }

  /**
   * `selectNext`: one step down, from the last entry back to the first.  The
   * index and the length are non-negative, so JavaScript's `%` is Dafny's.
   */
  function SelectNext(p: Palette): (r: Palette)
    ensures r.filtered == p.filtered && r.all == p.all && r.isOpen == p.isOpen
    ensures |p.filtered| == 0 ==> r == p
    ensures ValidSelection(p) ==> ValidSelection(r)
    ensures (ValidSelection(p) && |p.filtered| > 0)
              ==> r.selectedIndex == (if p.selectedIndex + 1 < |p.filtered| then p.selectedIndex + 1 else 0)
    ensures |p.filtered| > 0 ==> r.selectedIndex == (p.selectedIndex + 1) % |p.filtered|
  {
    if |p.filtered| == 0 then p
    else p.(selectedIndex := (p.selectedIndex + 1) % |p.filtered|)
  }

  /** `selectPrevious`: one step up, from the first entry round to the last. */
  function SelectPrevious(p: Palette): (r: Palette)
    ensures r.filtered == p.filtered && r.all == p.all && r.isOpen == p.isOpen
    ensures |p.filtered| == 0 ==> r == p
    ensures ValidSelection(p) ==> ValidSelection(r)
    ensures (ValidSelection(p) && |p.filtered| > 0)
              ==> r.selectedIndex == (if p.selectedIndex == 0 then |p.filtered| - 1 else p.selectedIndex - 1)
    ensures |p.filtered| > 0 ==> r.selectedIndex == (p.selectedIndex - 1 + |p.filtered|) % |p.filtered|
  {
    if |p.filtered| == 0 then p
    else
      var n := |p.filtered|;
      var previous := (p.selectedIndex - 1 + n) % n;
      if p.selectedIndex < n then
        PreviousIndex(p.selectedIndex, n);
        p.(selectedIndex := previous)
      else p.(selectedIndex := previous)
  }

  /** Down then up, or up then down, returns to the same entry. */
  lemma SelectRoundTrip(p: Palette)
    requires ValidSelection(p)
    ensures SelectPrevious(SelectNext(p)) == p
    ensures SelectNext(SelectPrevious(p)) == p
  {
    var n := |p.filtered|;
    if n > 0 {
      var s := p.selectedIndex;
      NextIndex(s, n);
      PreviousIndex(s, n);
      NextIndex(if s == 0 then n - 1 else s - 1, n);
      PreviousIndex(if s + 1 < n then s + 1 else 0, n);
    }
  }

  /** Moving past either end wraps around to the other end. */
  lemma SelectWraps(p: Palette)
    requires |p.filtered| > 0
    ensures p.selectedIndex == |p.filtered| - 1 ==> SelectNext(p).selectedIndex == 0
    ensures p.selectedIndex == 0 ==> SelectPrevious(p).selectedIndex == |p.filtered| - 1
  {
    var n := |p.filtered|;
    if p.selectedIndex < n {
      NextIndex(p.selectedIndex, n);
      PreviousIndex(p.selectedIndex, n);
    }
  }

  lemma NextIndex(s: nat, n: nat)
    requires s < n
    ensures (s + 1) % n == if s + 1 < n then s + 1 else 0
  {
  }

  lemma PreviousIndex(s: nat, n: nat)
    requires s < n
    ensures (s - 1 + n) % n == if s == 0 then n - 1 else s - 1
  {
    if s > 0 {
      assert s - 1 + n == (s - 1) + 1 * n;
    }
  }

  /** `close`: hidden, no entries, selection back to 0. */
  function Close(p: Palette): (r: Palette)
    ensures !r.isOpen && r.filtered == [] && ValidSelection(r) && r.all == p.all
  {
    p.(isOpen := false, selectedIndex := 0, filtered := [])
  }

  /** What running the selected entry produced. */
  datatype Execution = Execution(palette: Palette, recent: seq<string>, ran: Option<string>)

  /**
   * `executeSelected`: with no entries, or no entry at the selection, nothing
   * happens; otherwise the command is recorded as recent, runs, and the
   * palette closes.
   */
  function ExecuteSelected(p: Palette, recent: seq<string>): (r: Execution)
    ensures |p.filtered| == 0 ==> r == Execution(p, recent, None)
    ensures r.ran.Some? ==> r.recent == TrackRecentCommand(recent, r.ran.value) && !r.palette.isOpen
    ensures ValidSelection(p) && |p.filtered| > 0
            ==> r.ran == Some(p.filtered[p.selectedIndex].command.id)
  {
    if |p.filtered| == 0 || p.selectedIndex >= |p.filtered| then Execution(p, recent, None)
    else
      var c := p.filtered[p.selectedIndex].command;
      Execution(Close(p), TrackRecentCommand(recent, c.id), Some(c.id))
  }

  /**
   * A command just run is the first recent entry the next time the palette
   * shows recent commands, provided its id finds it among the commands.
   */
  lemma ExecuteThenRecent(p: Palette, recent: seq<string>)
    requires ValidSelection(p) && |p.filtered| > 0
    requires Find(p.all, p.filtered[p.selectedIndex].command.id) == Some(p.filtered[p.selectedIndex].command)
    ensures var r := ExecuteSelected(p, recent);
            ShowRecentCommands(r.palette, r.recent).filtered[0] == Recent(p.filtered[p.selectedIndex].command)
  {
    var c := p.filtered[p.selectedIndex].command;
    var r := ExecuteSelected(p, recent);
    var track := TrackRecentCommand(recent, c.id);
    assert track == [c.id] + track[1..];
    assert Resolve(p.all, track) == [c] + Resolve(p.all, track[1..]);
  }

  // ---------------------------------------------------------------------------
  // Grouping
  // ---------------------------------------------------------------------------

  datatype Group = Group(category: string, commands: seq<Command>)

  /** The categories in order of first appearance (the key order of the grouping object). */
  function CategoriesFrom(cmds: seq<Command>, seen: seq<string>): (r: seq<string>)
    ensures |seen| <= |r| && r[..|seen|] == seen
  {
    if cmds == [] then seen
    else CategoriesFrom(cmds[1..], if cmds[0].category in seen then seen else seen + [cmds[0].category])
  }

  function Categories(cmds: seq<Command>): seq<string> {
    CategoriesFrom(cmds, [])
  }

  /** The commands of one category, in list order. */
  function InCategory(cmds: seq<Command>, category: string): (r: seq<Command>)
    ensures forall i :: 0 <= i < |r| ==> r[i].category == category && r[i] in cmds
  {
    if cmds == [] then []
    else (if cmds[0].category == category then [cmds[0]] else []) + InCategory(cmds[1..], category)
  }

  /** `groupByCategory`: one group per category, in order of first appearance. */
  function GroupByCategory(cmds: seq<Command>): (groups: seq<Group>)
    ensures |groups| == |Categories(cmds)|
    ensures forall i :: 0 <= i < |groups| ==> groups[i] == Group(Categories(cmds)[i], InCategory(cmds, Categories(cmds)[i]))
  {
    var cats := Categories(cmds);
    seq(|cats|, i requires 0 <= i < |cats| => Group(cats[i], InCategory(cmds, cats[i])))
  }

  /** A category is listed exactly when a command of the list (or an already seen one) has it. */
  lemma {:induction false} CategoriesFromMember(cmds: seq<Command>, seen: seq<string>, c: string)
    ensures c in CategoriesFrom(cmds, seen) <==> c in seen || exists i :: 0 <= i < |cmds| && cmds[i].category == c
  {
    if cmds != [] {
      var next := if cmds[0].category in seen then seen else seen + [cmds[0].category];
      CategoriesFromMember(cmds[1..], next, c);
      if exists i :: 0 <= i < |cmds| && cmds[i].category == c {
        var i :| 0 <= i < |cmds| && cmds[i].category == c;
        if i > 0 { assert cmds[1..][i - 1] == cmds[i]; }
      }
      if exists i :: 0 <= i < |cmds| - 1 && cmds[1..][i].category == c {
        var i :| 0 <= i < |cmds| - 1 && cmds[1..][i].category == c;
        assert cmds[1..][i] == cmds[i + 1];
      }
    }
  }

  /** No category is listed twice. */
  lemma {:induction false} CategoriesFromDistinct(cmds: seq<Command>, seen: seq<string>)
    requires NoDuplicates(seen)
    ensures NoDuplicates(CategoriesFrom(cmds, seen))
  {
    if cmds != [] {
      var c := cmds[0].category;
      if c !in seen {
        var next := seen + [c];
        forall i, j | 0 <= i < j < |next| ensures next[i] != next[j] {
          if j == |seen| { assert next[i] in seen; }
        }
        CategoriesFromDistinct(cmds[1..], next);
      } else {
        CategoriesFromDistinct(cmds[1..], seen);
      }
    }
  }

  /** Every command is in the group of its own category, and only there. */
  lemma GroupMember(cmds: seq<Command>, x: Command)
    ensures var groups := GroupByCategory(cmds);
            x in cmds <==> exists i :: 0 <= i < |groups| && groups[i].category == x.category && x in groups[i].commands
  {
    var groups := GroupByCategory(cmds);
    CategoriesFromMember(cmds, [], x.category);
    if x in cmds {
      var k :| 0 <= k < |cmds| && cmds[k] == x;
      var i :| 0 <= i < |Categories(cmds)| && Categories(cmds)[i] == x.category;
      InCategoryKeeps(cmds, x);
      assert groups[i].commands == InCategory(cmds, x.category);
    }
  }

  lemma {:induction false} InCategoryKeeps(cmds: seq<Command>, x: Command)
    requires x in cmds
    ensures x in InCategory(cmds, x.category)
  {
    if cmds[0] != x {
      InCategoryKeeps(cmds[1..], x);
    }
  }

  /** Grouping keeps list order: a group of a concatenation is the groups of the parts, concatenated. */
  lemma {:induction false} InCategoryAppend(a: seq<Command>, b: seq<Command>, category: string)
    ensures InCategory(a + b, category) == InCategory(a, category) + InCategory(b, category)
  {
    if a != [] {
      assert (a + b)[0] == a[0] && (a + b)[1..] == a[1..] + b;
      InCategoryAppend(a[1..], b, category);
    } else {
      assert a + b == b;
    }
  }
}
