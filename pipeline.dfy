/**
 * One run of `main` (main.py): connect to the sheet, fetch the batch, seed
 * the known sets from the sheet's title and link columns, filter, and append
 * the rows in one batched write only when there is at least one.
 */
module Pipeline {
  import opened Wrappers
  import opened News
  import opened Dedup

  /** The sheet's title column (2) and link column (6), as `col_values` reads them. */
  datatype Sheet = Sheet(titleColumn: seq<string>, linkColumn: seq<string>)

  /** The run's only effect on the sheet: nothing, or one `append_rows` call. */
  datatype Write = NoWrite | AppendRows(rows: seq<Row>)

  /** The working sets as `set(worksheet.col_values(6))` and `set(worksheet.col_values(2))`. */
  function Seed(sheet: Sheet): (k: Known)
    ensures forall l :: l in k.links <==> l in sheet.linkColumn
    ensures forall t :: t in k.titles <==> t.Some? && t.value in sheet.titleColumn
  {
    Known(set l | l in sheet.linkColumn, set t | t in sheet.titleColumn :: Some(t))
  }

  /**
   * A run: `sheet` is `None` when connecting to the sheet failed and
   * `fetched` is `None` when the news request failed; either ends the run
   * with no write. So does `urlparse` raising on an accepted link, which
   * nothing in `main` catches. Otherwise the rows of the filter are appended,
   * or nothing is written when no candidate was accepted.
   */
  method Run(sheet: Option<Sheet>, fetched: Option<seq<Article>>, sim: Similarity, env: Env)
    returns (w: Write)
    ensures sheet.None? || fetched.None? ==> w == NoWrite
    ensures sheet.Some? && fetched.Some? ==>
      var p := Filter(fetched.value, Seed(sheet.value), sim, env);
      && (w.AppendRows? <==> p.accepted != [] && HostsParse(fetched.value, p.accepted, env))
      && (w.AppendRows? ==> w.rows == p.rows && w.rows != [])
  {
    if sheet.None? {
      return NoWrite;
    }
    if fetched.None? {
      return NoWrite;
    }
    var seed := Seed(sheet.value);
    var failed, rows, _, _, _ := FilterBatch(fetched.value, seed.links, seed.titles, sim, env);
    PassShape(fetched.value, 0, seed, sim, env);
    if failed {
      w := NoWrite;
    } else if rows != [] {
      w := AppendRows(rows);
    } else {
      w := NoWrite;
    }
  }

  /**
   * A second run over the same batch, against a sheet that holds the first
   * sheet's columns and the appended rows' link and title cells, writes nothing.
   */
  lemma SecondRunWritesNothing(arts: seq<Article>, sheet1: Sheet, sheet2: Sheet, sim: Similarity, env1: Env, env2: Env)
    requires var rows := Filter(arts, Seed(sheet1), sim, env1).rows;
      && Seed(sheet1).links + LinkCells(rows) <= Seed(sheet2).links
      && Seed(sheet1).titles + TitleCells(rows) <= Seed(sheet2).titles
    ensures Filter(arts, Seed(sheet2), sim, env2).accepted == []
  {
    PassKnown(arts, 0, Seed(sheet1), sim, env1);
    RerunWithSupersets(arts, Seed(sheet1), Seed(sheet2), sim, env1, env2);
  }
}
