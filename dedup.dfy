/**
 * The duplicate filter in `main` (main.py): candidates are visited newest
 * last, i.e. from the end of the batch to its start; a candidate is accepted
 * when its link is truthy and unknown and its title is not too similar to any
 * known title, and an accepted candidate's link and title join the known sets
 * at once, so later candidates of the same batch are checked against it.
 */
module Dedup {
  import opened Wrappers
  import opened News
  import opened Summary

  /** A title as `article.get('title')` yields it (possibly `None`). */
  type Title = Option<string>

  /** A `fuzz.token_sort_ratio` result. */
  type Score = x: int | 0 <= x <= 100

  /** The similarity measure, kept abstract: only its range is known. */
  type Similarity = (Title, Title) -> Score

  /** A candidate is a near-duplicate when some score is strictly above this. */
  const Threshold: int := 50

  /**
   * What building a row needs besides the article: the API key, the backend's
   * reply and the clock reading for the candidate at each batch position, and
   * the host part (`urlparse(link).netloc`) of a link, `None` where
   * `urlparse` raises (a malformed bracketed host such as `"http://[::1"`).
   */
  datatype Env = Env(
    apiKey: Option<string>,
    reply: nat -> Reply,
    host: string -> Option<string>,
    clock: nat -> string)

  /** The working sets seeded from the sheet's link and title columns. */
  datatype Known = Known(links: set<string>, titles: set<Title>)

  /** The filter's state: known sets, accepted batch positions in acceptance order, rows built. */
  datatype Pass = Pass(known: Known, accepted: seq<nat>, rows: seq<Row>)

  function LinkText(a: Article): string
  {
    Get(a.link).GetOr("")
  }

  function TitleOf(a: Article): Title
  {
    Get(a.title)
  }

  /** The exact-match test: the link is truthy and not yet known. */
  predicate IsNewLink(link: Option<string>, links: set<string>)
  {
    Truthy(link) && link.value !in links
  }

  /** Some known title scores strictly above the threshold against `title`. */
  ghost predicate NearDuplicate(title: Title, titles: set<Title>, sim: Similarity)
  {
    exists t :: t in titles && sim(title, t) > Threshold
  }

  /** Whether a candidate is accepted against the sets known at its turn. */
  ghost predicate Admits(known: Known, a: Article, sim: Similarity)
  {
    IsNewLink(Get(a.link), known.links) && !NearDuplicate(TitleOf(a), known.titles, sim)
  }

  /**
   * The row for the accepted candidate at batch position `i`. When the host
   * cannot be parsed the run fails (see `HostsParse`) and this row is never
   * written, so the empty domain used then is of no consequence.
   */
  function RowFor(a: Article, i: nat, env: Env): Row
  {
    var link := LinkText(a);
    BuildRow(a, link, AiSummary(Get(a.description), env.apiKey, env.reply(i)),
             env.host(link).GetOr(""), env.clock(i))
  }

  /** `urlparse` succeeds on the link of every accepted position. */
  ghost predicate HostsParse(arts: seq<Article>, accepted: seq<nat>, env: Env)
  {
    forall j :: j in accepted && j < |arts| ==> env.host(LinkText(arts[j])).Some?
  }

  /** One turn of the loop: the candidate at position `i` is accepted or left out. */
  ghost function Visit(p: Pass, arts: seq<Article>, i: nat, sim: Similarity, env: Env): Pass
    requires i < |arts|
  {
    var a := arts[i];
    if Admits(p.known, a, sim) then
      Pass(Known(p.known.links + {LinkText(a)}, p.known.titles + {TitleOf(a)}),
           p.accepted + [i], p.rows + [RowFor(a, i, env)])
    else
      p
  }

  /** The state once positions |arts|-1 down to k have been visited. */
  ghost function PassFrom(arts: seq<Article>, k: nat, init: Known, sim: Similarity, env: Env): Pass
    requires k <= |arts|
    decreases |arts| - k
  {
    if k == |arts| then Pass(init, [], [])
    else Visit(PassFrom(arts, k + 1, init, sim, env), arts, k, sim, env)
  }

  /** The whole batch, visited in reverse. */
  ghost function Filter(arts: seq<Article>, init: Known, sim: Similarity, env: Env): Pass
  {
    PassFrom(arts, 0, init, sim, env)
  }

  /** The links found in column 6 of the rows (what the next run reads back). */
  function LinkCells(rows: seq<Row>): set<string>
  {
    set m | 0 <= m < |rows| && rows[m][LinkColumn - 1].Some? :: rows[m][LinkColumn - 1].value
  }

  /** The titles found in column 2 of the rows. */
  function TitleCells(rows: seq<Row>): set<Title>
  {
    set m | 0 <= m < |rows| :: rows[m][TitleColumn - 1]
  }

  lemma CellsAppend(rows: seq<Row>, r: Row)
    ensures LinkCells(rows + [r]) ==
      LinkCells(rows) + (if r[LinkColumn - 1].Some? then {r[LinkColumn - 1].value} else {})
    ensures TitleCells(rows + [r]) == TitleCells(rows) + {r[TitleColumn - 1]}
  {
    var rs := rows + [r];
    assert rs[|rows|] == r;
    forall l | l in LinkCells(rows)
      ensures l in LinkCells(rs)
    {
      var m :| 0 <= m < |rows| && rows[m][LinkColumn - 1].Some? && rows[m][LinkColumn - 1].value == l;
      assert rs[m] == rows[m];
    }
    forall t | t in TitleCells(rows)
      ensures t in TitleCells(rs)
    {
      var m :| 0 <= m < |rows| && rows[m][TitleColumn - 1] == t;
      assert rs[m] == rows[m];
    }
    forall l | l in LinkCells(rs)
      ensures l in LinkCells(rows) || (r[LinkColumn - 1].Some? && l == r[LinkColumn - 1].value)
    {
      var m :| 0 <= m < |rs| && rs[m][LinkColumn - 1].Some? && rs[m][LinkColumn - 1].value == l;
      if m < |rows| {
        assert rs[m] == rows[m];
      }
    }
    forall t | t in TitleCells(rs)
      ensures t in TitleCells(rows) || t == r[TitleColumn - 1]
    {
      var m :| 0 <= m < |rs| && rs[m][TitleColumn - 1] == t;
      if m < |rows| {
        assert rs[m] == rows[m];
      }
    }
  }

  /**
   * What a pass looks like: one row per accepted position, positions in
   * strictly decreasing order (the reverse of the batch order), every accepted
   * link truthy, and each row built from its own candidate.
   */
  lemma {:induction false} PassShape(arts: seq<Article>, k: nat, init: Known, sim: Similarity, env: Env)
    requires k <= |arts|
    decreases |arts| - k
    ensures var p := PassFrom(arts, k, init, sim, env);
      && |p.rows| == |p.accepted|
      && (forall m :: 0 <= m < |p.accepted| ==> k <= p.accepted[m] < |arts|)
      && (forall m, n :: 0 <= m < n < |p.accepted| ==> p.accepted[m] > p.accepted[n])
      && (forall m :: 0 <= m < |p.accepted| ==>
            Truthy(Get(arts[p.accepted[m]].link)) &&
            p.rows[m] == RowFor(arts[p.accepted[m]], p.accepted[m], env))
  {
    if k < |arts| {
      PassShape(arts, k + 1, init, sim, env);
      var p := PassFrom(arts, k + 1, init, sim, env);
      var q := PassFrom(arts, k, init, sim, env);
      if Admits(p.known, arts[k], sim) {
        assert q.accepted == p.accepted + [k];
        assert q.rows == p.rows + [RowFor(arts[k], k, env)];
        forall m | 0 <= m < |q.accepted|
          ensures Truthy(Get(arts[q.accepted[m]].link))
          ensures q.rows[m] == RowFor(arts[q.accepted[m]], q.accepted[m], env)
        {
          if m < |p.accepted| {
            assert q.accepted[m] == p.accepted[m] && q.rows[m] == p.rows[m];
          }
        }
      } else {
        assert q == p;
      }
    }
  }

  /** The known sets are the seeds plus the link and title columns of the rows built. */
  lemma {:induction false} PassKnown(arts: seq<Article>, k: nat, init: Known, sim: Similarity, env: Env)
    requires k <= |arts|
    decreases |arts| - k
    ensures var p := PassFrom(arts, k, init, sim, env);
      && p.known.links == init.links + LinkCells(p.rows)
      && p.known.titles == init.titles + TitleCells(p.rows)
  {
    if k < |arts| {
      PassKnown(arts, k + 1, init, sim, env);
      var p := PassFrom(arts, k + 1, init, sim, env);
      if Admits(p.known, arts[k], sim) {
        var r := RowFor(arts[k], k, env);
        CellsAppend(p.rows, r);
        assert r[LinkColumn - 1] == Some(LinkText(arts[k]));
        assert r[TitleColumn - 1] == TitleOf(arts[k]);
      }
    }
  }

  /** Column 6 of row m holds the accepted link, column 2 its title. */
  lemma RowCells(arts: seq<Article>, k: nat, init: Known, sim: Similarity, env: Env, m: nat)
    requires k <= |arts|
    requires m < |PassFrom(arts, k, init, sim, env).accepted|
    ensures var p := PassFrom(arts, k, init, sim, env);
      && m < |p.rows|
      && p.accepted[m] < |arts|
      && LinkText(arts[p.accepted[m]]) in LinkCells(p.rows)
      && LinkText(arts[p.accepted[m]]) in p.known.links
      && TitleOf(arts[p.accepted[m]]) in p.known.titles
  {
    PassShape(arts, k, init, sim, env);
    PassKnown(arts, k, init, sim, env);
    var p := PassFrom(arts, k, init, sim, env);
    assert p.rows[m][LinkColumn - 1] == Some(LinkText(arts[p.accepted[m]]));
    assert p.rows[m][TitleColumn - 1] == TitleOf(arts[p.accepted[m]]);
  }

  /**
   * Visiting more positions only extends the accepted positions (with smaller
   * ones) and only grows the known sets.
   */
  lemma {:induction false} PassPrefix(arts: seq<Article>, k: nat, j: nat, init: Known, sim: Similarity, env: Env)
    requires k <= j <= |arts|
    decreases j - k
    ensures var p, q := PassFrom(arts, j, init, sim, env), PassFrom(arts, k, init, sim, env);
      && p.accepted <= q.accepted
      && (forall m :: |p.accepted| <= m < |q.accepted| ==> q.accepted[m] < j)
      && p.known.links <= q.known.links
      && p.known.titles <= q.known.titles
  {
    if k < j {
      PassPrefix(arts, k + 1, j, init, sim, env);
    }
  }

  /**
   * A candidate is accepted exactly when its link is truthy and unknown and
   * its title is no near-duplicate, against the sets known at its turn.
   */
  lemma AcceptedIff(arts: seq<Article>, k: nat, i: nat, init: Known, sim: Similarity, env: Env)
    requires k <= i < |arts|
    ensures i in PassFrom(arts, k, init, sim, env).accepted <==>
      Admits(PassFrom(arts, i + 1, init, sim, env).known, arts[i], sim)
  {
    PassPrefix(arts, k, i, init, sim, env);
    PassShape(arts, i + 1, init, sim, env);
    var p := PassFrom(arts, i + 1, init, sim, env);
    var pi := PassFrom(arts, i, init, sim, env);
    var q := PassFrom(arts, k, init, sim, env);
    assert i !in p.accepted;
    if i in q.accepted {
      var m :| 0 <= m < |q.accepted| && q.accepted[m] == i;
      assert m < |pi.accepted| && pi.accepted[m] == q.accepted[m];
    }
    if Admits(p.known, arts[i], sim) {
      assert pi.accepted[|pi.accepted| - 1] == i;
      assert q.accepted[|pi.accepted| - 1] == i;
    }
  }

  /** A candidate whose link is missing, `null` or empty is never accepted, whatever its title. */
  lemma MissingLinkRejected(arts: seq<Article>, init: Known, sim: Similarity, env: Env, i: nat)
    requires i < |arts| && !Truthy(Get(arts[i].link))
    ensures i !in Filter(arts, init, sim, env).accepted
  {
    PassShape(arts, 0, init, sim, env);
  }

  /**
   * No accepted link was known beforehand and no two accepted candidates share
   * a link, so exactly one new link is known per accepted candidate.
   */
  lemma {:induction false} AcceptedLinksFresh(arts: seq<Article>, k: nat, init: Known, sim: Similarity, env: Env)
    requires k <= |arts|
    decreases |arts| - k
    ensures var p := PassFrom(arts, k, init, sim, env);
      && (forall m :: 0 <= m < |p.accepted| ==> p.accepted[m] < |arts|)
      && (forall m :: 0 <= m < |p.accepted| ==> LinkText(arts[p.accepted[m]]) !in init.links)
      && (forall m, n :: 0 <= m < n < |p.accepted| ==>
            LinkText(arts[p.accepted[m]]) != LinkText(arts[p.accepted[n]]))
      && init.links <= p.known.links
      && |p.known.links| == |init.links| + |p.accepted|
  {
    PassShape(arts, k, init, sim, env);
    if k < |arts| {
      AcceptedLinksFresh(arts, k + 1, init, sim, env);
      var p := PassFrom(arts, k + 1, init, sim, env);
      var q := PassFrom(arts, k, init, sim, env);
      if Admits(p.known, arts[k], sim) {
        assert q.accepted == p.accepted + [k];
        forall m | 0 <= m < |p.accepted|
          ensures LinkText(arts[p.accepted[m]]) != LinkText(arts[k])
        {
          RowCells(arts, k + 1, init, sim, env, m);
        }
        forall m, n | 0 <= m < n < |q.accepted|
          ensures LinkText(arts[q.accepted[m]]) != LinkText(arts[q.accepted[n]])
        {
          if n < |p.accepted| {
            assert q.accepted[m] == p.accepted[m] && q.accepted[n] == p.accepted[n];
          } else {
            assert q.accepted[m] == p.accepted[m] && q.accepted[n] == k;
          }
        }
        forall m | 0 <= m < |q.accepted|
          ensures LinkText(arts[q.accepted[m]]) !in init.links
        {
          if m < |p.accepted| {
            assert q.accepted[m] == p.accepted[m];
          }
        }
      }
    }
  }

  /**
   * Every accepted title scores at most the threshold against each seeded
   * title and against each title accepted before it in the same batch.
   */
  lemma {:induction false} AcceptedTitlesDistant(arts: seq<Article>, k: nat, init: Known, sim: Similarity, env: Env)
    requires k <= |arts|
    decreases |arts| - k
    ensures var p := PassFrom(arts, k, init, sim, env);
      && (forall m :: 0 <= m < |p.accepted| ==> p.accepted[m] < |arts|)
      && (forall m, t :: 0 <= m < |p.accepted| && t in init.titles ==>
            sim(TitleOf(arts[p.accepted[m]]), t) <= Threshold)
      && (forall m, n :: 0 <= m < n < |p.accepted| ==>
            sim(TitleOf(arts[p.accepted[n]]), TitleOf(arts[p.accepted[m]])) <= Threshold)
  {
    PassShape(arts, k, init, sim, env);
    if k < |arts| {
      AcceptedTitlesDistant(arts, k + 1, init, sim, env);
      PassKnown(arts, k + 1, init, sim, env);
      var p := PassFrom(arts, k + 1, init, sim, env);
      var q := PassFrom(arts, k, init, sim, env);
      if Admits(p.known, arts[k], sim) {
        assert q.accepted == p.accepted + [k];
        forall m | 0 <= m < |p.accepted|
          ensures sim(TitleOf(arts[k]), TitleOf(arts[p.accepted[m]])) <= Threshold
        {
          RowCells(arts, k + 1, init, sim, env, m);
        }
        forall m, t | 0 <= m < |q.accepted| && t in init.titles
          ensures sim(TitleOf(arts[q.accepted[m]]), t) <= Threshold
        {
          if m < |p.accepted| {
            assert q.accepted[m] == p.accepted[m];
          }
        }
        forall m, n | 0 <= m < n < |q.accepted|
          ensures sim(TitleOf(arts[q.accepted[n]]), TitleOf(arts[q.accepted[m]])) <= Threshold
        {
          if n < |p.accepted| {
            assert q.accepted[m] == p.accepted[m] && q.accepted[n] == p.accepted[n];
          } else {
            assert q.accepted[m] == p.accepted[m] && q.accepted[n] == k;
          }
        }
      }
    }
  }

  /**
   * One turn: the known sets only grow; a rejected candidate changes nothing;
   * an accepted one adds exactly its (new) link and its title, and one row.
   */
  lemma StepEffect(arts: seq<Article>, k: nat, init: Known, sim: Similarity, env: Env)
    requires k < |arts|
    ensures var p, q := PassFrom(arts, k + 1, init, sim, env), PassFrom(arts, k, init, sim, env);
      && p.known.links <= q.known.links
      && p.known.titles <= q.known.titles
      && (k !in q.accepted ==> q == p)
      && (k in q.accepted ==>
            && LinkText(arts[k]) !in p.known.links
            && q.known.links == p.known.links + {LinkText(arts[k])}
            && q.known.titles == p.known.titles + {TitleOf(arts[k])}
            && q.accepted == p.accepted + [k]
            && q.rows == p.rows + [RowFor(arts[k], k, env)])
  {
    PassShape(arts, k + 1, init, sim, env);
  }

  /**
   * Of two candidates with the same link, the one visited second (the earlier
   * batch position) is rejected on the link alone once the other was accepted.
   */
  lemma SameLinkOnce(arts: seq<Article>, init: Known, sim: Similarity, env: Env, i: nat, j: nat)
    requires i < j < |arts| && Get(arts[i].link) == Get(arts[j].link)
    requires j in Filter(arts, init, sim, env).accepted
    ensures !IsNewLink(Get(arts[i].link), PassFrom(arts, i + 1, init, sim, env).known.links)
    ensures i !in Filter(arts, init, sim, env).accepted
  {
    AcceptedIff(arts, 0, j, init, sim, env);
    AcceptedIff(arts, i + 1, j, init, sim, env);
    AcceptedIff(arts, 0, i, init, sim, env);
    var p := PassFrom(arts, i + 1, init, sim, env);
    var m :| 0 <= m < |p.accepted| && p.accepted[m] == j;
    RowCells(arts, i + 1, init, sim, env, m);
  }

  /**
   * Whether a candidate is accepted, and what becomes known, does not depend
   * on the summaries, the host function or the clock.
   */
  lemma {:induction false} AcceptanceIgnoresSummary(arts: seq<Article>, k: nat, init: Known, sim: Similarity, e1: Env, e2: Env)
    requires k <= |arts|
    decreases |arts| - k
    ensures PassFrom(arts, k, init, sim, e1).known == PassFrom(arts, k, init, sim, e2).known
    ensures PassFrom(arts, k, init, sim, e1).accepted == PassFrom(arts, k, init, sim, e2).accepted
    ensures |PassFrom(arts, k, init, sim, e1).rows| == |PassFrom(arts, k, init, sim, e2).rows|
  {
    if k < |arts| {
      AcceptanceIgnoresSummary(arts, k + 1, init, sim, e1, e2);
    }
  }

  lemma {:induction false} RerunFrom(arts: seq<Article>, k: nat, init1: Known, init2: Known, sim: Similarity, env1: Env, env2: Env)
    requires k <= |arts|
    requires Filter(arts, init1, sim, env1).known.links <= init2.links
    requires Filter(arts, init1, sim, env1).known.titles <= init2.titles
    decreases |arts| - k
    ensures PassFrom(arts, k, init2, sim, env2) == Pass(init2, [], [])
  {
    if k < |arts| {
      RerunFrom(arts, k + 1, init1, init2, sim, env1, env2);
      var a := arts[k];
      var p1 := Filter(arts, init1, sim, env1);
      var before := PassFrom(arts, k + 1, init1, sim, env1);
      PassPrefix(arts, 0, k + 1, init1, sim, env1);
      AcceptedIff(arts, 0, k, init1, sim, env1);
      if IsNewLink(Get(a.link), init2.links) {
        assert IsNewLink(Get(a.link), before.known.links);
        if k in p1.accepted {
          var m :| 0 <= m < |p1.accepted| && p1.accepted[m] == k;
          RowCells(arts, 0, init1, sim, env1, m);
          assert false;
        }
        assert NearDuplicate(TitleOf(a), before.known.titles, sim);
        var t :| t in before.known.titles && sim(TitleOf(a), t) > Threshold;
        assert t in init2.titles;
      }
      assert !Admits(init2, a, sim);
    }
  }

  /**
   * Running the filter again on the same batch, with known sets that contain
   * everything the first run ended up knowing, accepts nothing and builds no row.
   */
  lemma RerunWithSupersets(arts: seq<Article>, init1: Known, init2: Known, sim: Similarity, env1: Env, env2: Env)
    requires Filter(arts, init1, sim, env1).known.links <= init2.links
    requires Filter(arts, init1, sim, env1).known.titles <= init2.titles
    ensures Filter(arts, init2, sim, env2).accepted == []
    ensures Filter(arts, init2, sim, env2).rows == []
  {
    RerunFrom(arts, 0, init1, init2, sim, env1, env2);
  }

  /**
   * Once the rows are appended, a run over the same batch seeded with the old
   * columns plus the new rows' link and title columns adds nothing.
   */
  lemma RerunAfterAppend(arts: seq<Article>, init: Known, sim: Similarity, env1: Env, env2: Env)
    ensures var rows := Filter(arts, init, sim, env1).rows;
      Filter(arts, Known(init.links + LinkCells(rows), init.titles + TitleCells(rows)), sim, env2).rows == []
  {
    PassKnown(arts, 0, init, sim, env1);
    var p := Filter(arts, init, sim, env1);
    RerunWithSupersets(arts, init, Known(init.links + LinkCells(p.rows), init.titles + TitleCells(p.rows)), sim, env1, env2);
  }

  /**
   * Seeding a re-run with the accepted links alone does not make it add
   * nothing: in the batch `[a: "x", b: "y"]`, `a` is rejected only as a
   * near-duplicate of `b`, accepted just before it, and a re-run that knows
   * `b`'s link but not its title accepts `a`. Hence `RerunWithSupersets`
   * needs both known sets.
   */
  lemma LinksOnlyRerunAccepts(sim: Similarity, env: Env)
    requires sim(Some("x"), Some("y")) > Threshold
    ensures var arts := [Article(Text("a"), Text("x"), Missing, Missing, Missing, Missing),
                         Article(Text("b"), Text("y"), Missing, Missing, Missing, Missing)];
            && Filter(arts, Known({}, {}), sim, env).accepted == [1]
            && Filter(arts, Known({}, {}), sim, env).known.links == {"b"}
            && Filter(arts, Known({"b"}, {}), sim, env).accepted == [0]
  {
    var arts := [Article(Text("a"), Text("x"), Missing, Missing, Missing, Missing),
                 Article(Text("b"), Text("y"), Missing, Missing, Missing, Missing)];
    var first, second := Known({}, {}), Known({"b"}, {});
    assert Admits(first, arts[1], sim);
    var p := PassFrom(arts, 1, first, sim, env);
    assert p.known == Known({"b"}, {Some("y")});
    assert !Admits(p.known, arts[0], sim);
    assert !Admits(second, arts[1], sim);
    assert PassFrom(arts, 1, second, sim, env) == Pass(second, [], []);
    assert Admits(second, arts[0], sim);
  }

  /**
   * A candidate scoring strictly above the threshold against some title known
   * at its turn is rejected.
   */
  lemma NearDuplicateRejected(arts: seq<Article>, init: Known, sim: Similarity, env: Env, i: nat, t: Title)
    requires i < |arts|
    requires t in PassFrom(arts, i + 1, init, sim, env).known.titles
    requires sim(TitleOf(arts[i]), t) > Threshold
    ensures i !in Filter(arts, init, sim, env).accepted
  {
    AcceptedIff(arts, 0, i, init, sim, env);
  }

  /**
   * An accepted candidate's row carries its summary; when the description and
   * key are truthy but the backend raised, that is the "failed" sentinel, and
   * the candidate is accepted all the same.
   */
  lemma FailedSummaryKeepsRow(arts: seq<Article>, init: Known, sim: Similarity, env: Env, i: nat)
    requires i in Filter(arts, init, sim, env).accepted
    requires i < |arts| && Truthy(Get(arts[i].description)) && Truthy(env.apiKey) && env.reply(i).Raised?
    ensures var p := Filter(arts, init, sim, env);
      exists m ::
        && 0 <= m < |p.accepted| && m < |p.rows|
        && p.accepted[m] == i
        && p.rows[m][SummaryColumn - 1] == Some(SummaryFailed)
  {
    PassShape(arts, 0, init, sim, env);
    var p := Filter(arts, init, sim, env);
    var m :| 0 <= m < |p.accepted| && p.accepted[m] == i;
    assert p.rows[m] == RowFor(arts[i], i, env);
  }

  /**
   * The inner loop over the known titles: stops at the first title scoring
   * strictly above the threshold. The set is walked in an unspecified order.
   */
  method IsSemanticDuplicate(title: Title, titles: set<Title>, sim: Similarity) returns (duplicate: bool)
    ensures duplicate <==> NearDuplicate(title, titles, sim)
  {
    duplicate := false;
    var rest := titles;
    while rest != {}
      invariant rest <= titles
      invariant forall t :: t in titles - rest ==> sim(title, t) <= Threshold
      decreases |rest|
    {
      var existing :| existing in rest;
      if sim(title, existing) > Threshold {
        duplicate := true;
        break;
      }
      rest := rest - {existing};
    }
  }

  /**
   * The loop of `main` over `reversed(articles)`: returns the rows to append
   * and the final known sets; `accepted` records the batch positions taken.
   * `failed` reports that `urlparse` raised on an accepted link, which ends
   * the loop (and the run) at once; the other results are then partial.
   */
  method FilterBatch(articles: seq<Article>, links0: set<string>, titles0: set<Title>, sim: Similarity, env: Env)
    returns (failed: bool, rows: seq<Row>, links: set<string>, titles: set<Title>, ghost accepted: seq<nat>)
    ensures failed <==> !HostsParse(articles, Filter(articles, Known(links0, titles0), sim, env).accepted, env)
    ensures !failed ==> rows == Filter(articles, Known(links0, titles0), sim, env).rows
    ensures !failed ==> links == Filter(articles, Known(links0, titles0), sim, env).known.links
    ensures !failed ==> titles == Filter(articles, Known(links0, titles0), sim, env).known.titles
    ensures !failed ==> accepted == Filter(articles, Known(links0, titles0), sim, env).accepted
  {
    failed := false;
    links, titles, rows, accepted := links0, titles0, [], [];
    var i := |articles|;
    while i > 0
      invariant 0 <= i <= |articles|
      invariant Pass(Known(links, titles), accepted, rows) == PassFrom(articles, i, Known(links0, titles0), sim, env)
      invariant HostsParse(articles, accepted, env)
    {
      i := i - 1;
      var article := articles[i];
      var sourceLink := Get(article.link);
      var title := Get(article.title);
      if sourceLink.Some? && sourceLink.value != "" && sourceLink.value !in links {
        var duplicate := IsSemanticDuplicate(title, titles, sim);
        if !duplicate {
          var summary := AiSummary(Get(article.description), env.apiKey, env.reply(i));
          var domain := env.host(sourceLink.value);
          if domain.None? {
            AcceptedIff(articles, 0, i, Known(links0, titles0), sim, env);
            failed := true;
            return;
          }
          var row := BuildRow(article, sourceLink.value, summary, domain.value, env.clock(i));
          rows := rows + [row];
          links := links + {sourceLink.value};
          titles := titles + {title};
          accepted := accepted + [i];
        }
      }
    }
  }
}
