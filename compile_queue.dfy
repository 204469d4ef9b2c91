/**
 * `findNotesToCompile` of service/scripts/publish.ts and
 * service/scripts/generate_static_site.ts: in row order, the ids of the
 * `notes_contents` rows compiled by another compiler version or from
 * another source version than the current one.
 */
module CompileQueue {
  import opened Options
  import opened Seqs

  /** The columns read from `notes_contents`; each may be null. */
  datatype ContentRow = ContentRow(
    id: string,
    sourceVersion: Option<string>,
    compiledSourceVersion: Option<string>,
    compiledCompilerVersion: Option<string>)

  /** The row needs compiling: `!==` on the compiler version or on the two source versions. */
  predicate Stale(row: ContentRow, compilerVersion: string) {
    row.compiledCompilerVersion != Some(compilerVersion) || row.sourceVersion != row.compiledSourceVersion
  }

  /** The ids of the stale rows, in row order. */
  function StaleIds(rows: seq<ContentRow>, compilerVersion: string): (ids: seq<string>)
    ensures |ids| <= |rows|
    decreases |rows|
  {
    if rows == [] then []
    else
      var front := StaleIds(rows[..|rows| - 1], compilerVersion);
      var row := rows[|rows| - 1];
      if Stale(row, compilerVersion) then front + [row.id] else front
  }

  /** The loop over the rows, proved against the stale rows' ids in order. */
  method FindNotesToCompile(rows: seq<ContentRow>, compilerVersion: string) returns (toCompile: seq<string>)
    ensures toCompile == StaleIds(rows, compilerVersion)
  {
    toCompile := [];
    for i := 0 to |rows|
      invariant toCompile == StaleIds(rows[..i], compilerVersion)
    {
      PrefixStep(rows, i);
      var row := rows[i];
      if row.compiledCompilerVersion != Some(compilerVersion) || row.sourceVersion != row.compiledSourceVersion {
        toCompile := toCompile + [row.id];
      }
    }
    PrefixWhole(rows);
  }

  /** An id is selected exactly when some row of it is stale. */
  lemma {:induction false} Selected(rows: seq<ContentRow>, compilerVersion: string, id: string)
    ensures id in StaleIds(rows, compilerVersion) <==> exists row :: row in rows && Stale(row, compilerVersion) && row.id == id
    decreases |rows|
  {
    if rows != [] {
      var front := rows[..|rows| - 1];
      var last := rows[|rows| - 1];
      Selected(front, compilerVersion, id);
      assert rows == front + [last];
      assert forall row :: row in rows <==> row in front || row == last;
    }
  }

  /** What `compileNote` writes back: the row's source version, compiled by `compilerVersion`, so no longer stale. */
  function Compiled(row: ContentRow, compilerVersion: string): (r: ContentRow)
    ensures r.id == row.id && r.sourceVersion == row.sourceVersion
    ensures !Stale(r, compilerVersion)
  {
    row.(compiledSourceVersion := row.sourceVersion, compiledCompilerVersion := Some(compilerVersion))
  }

  /** Once every row is compiled by the current version, nothing is left to compile. */
  lemma {:induction false} CompiledNothingLeft(rows: seq<ContentRow>, compilerVersion: string)
    requires forall k :: 0 <= k < |rows| ==> rows[k] == Compiled(rows[k], compilerVersion)
    ensures StaleIds(rows, compilerVersion) == []
    decreases |rows|
  {
    if rows != [] {
      var front := rows[..|rows| - 1];
      assert forall k :: 0 <= k < |front| ==> front[k] == rows[k];
      CompiledNothingLeft(front, compilerVersion);
      assert !Stale(rows[|rows| - 1], compilerVersion) by {
        assert rows[|rows| - 1] == Compiled(rows[|rows| - 1], compilerVersion);
      }
    }
  }

  /**
   * The two scripts' versions, `'2'` and `'6'`, undo each other: a row the
   * one compiled is stale for the other.
   */
  lemma VersionsDisagree(row: ContentRow)
    ensures Stale(Compiled(row, "2"), "6") && Stale(Compiled(row, "6"), "2")
  {
  }
}
