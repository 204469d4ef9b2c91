/**
 * What the two publishing workers share before hashing: the entries of the
 * notes tarball, the `*.md` name pattern of their tar filters, and the
 * accept loop of `loadPublicNotes`, which keeps the contents of every file
 * the indexer returns a (truthy) id for, under that id.
 */
module TarSources {
  import opened Options
  import opened Seqs
  import opened OrderedMaps

  /** A tarball entry: its path, whether its type is `File`, and its contents as text. */
  datatype TarEntry = TarEntry(path: string, isFile: bool, content: string)

  /** `/^[^/]+\.md$/`: at least one character other than `/`, then `.md` at the end. */
  predicate MarkdownName(name: string) {
    |name| > 3 && '/' !in name && name[|name| - 3..] == ".md"
  }

  /** `if (id)`: an id is kept when there is one and it is not the empty string. */
  predicate Truthy(id: Option<string>) {
    id.Some? && id.value != ""
  }

  /**
   * `sourceMap` after the accept loop over `entries`: `accept` says what the
   * filter and the indexer make of an entry, and an entry with a truthy id
   * is `sourceMap.set(id, content)`.
   */
  function Sources(entries: seq<TarEntry>, accept: TarEntry -> Option<string>): (m: OrderedMap<string>)
    ensures m.Valid()
    ensures |m.keys| <= |entries|
    ensures forall k :: k in m.values ==> k != ""
    decreases |entries|
  {
    if entries == [] then Empty()
    else
      var sources := Sources(entries[..|entries| - 1], accept);
      var e := entries[|entries| - 1];
      var id := accept(e);
      if Truthy(id) then sources.Set(id.value, e.content) else sources
  }

  /** Entry `i` is the last of `entries` that `accept` gives the id `k`. */
  predicate LastWith(entries: seq<TarEntry>, accept: TarEntry -> Option<string>, k: string, i: int) {
    && 0 <= i < |entries| && accept(entries[i]) == Some(k)
    && forall j :: i < j < |entries| ==> accept(entries[j]) != Some(k)
  }

  /** The last entry with id `k` before the final entry stays the last when the final one has another id. */
  lemma LastWithExtends(entries: seq<TarEntry>, accept: TarEntry -> Option<string>, k: string, i: int)
    requires entries != [] && LastWith(entries[..|entries| - 1], accept, k, i)
    requires accept(entries[|entries| - 1]) != Some(k)
    ensures LastWith(entries, accept, k, i) && entries[i] == entries[..|entries| - 1][i]
  {
    var front := entries[..|entries| - 1];
    forall j | i < j < |entries| ensures accept(entries[j]) != Some(k) {
      if j < |entries| - 1 {
        assert entries[j] == front[j];
      }
    }
  }

  /**
   * The sources are keyed by exactly the non-empty ids `accept` gives some
   * entry, and each holds the contents of the last entry with its id.
   */
  lemma {:induction false} SourcesOutcome(entries: seq<TarEntry>, accept: TarEntry -> Option<string>)
    ensures var m := Sources(entries, accept);
      && (forall k :: k in m.values ==> k != "" && exists i :: LastWith(entries, accept, k, i) && m.values[k] == entries[i].content)
      && (forall i :: 0 <= i < |entries| && Truthy(accept(entries[i])) ==> accept(entries[i]).value in m.values)
  {
    var m := Sources(entries, accept);
    forall k | k in m.values
      ensures k != "" && exists i :: LastWith(entries, accept, k, i) && m.values[k] == entries[i].content
    {
      var i := SourceOf(entries, accept, k);
    }
    forall i | 0 <= i < |entries| && Truthy(accept(entries[i]))
      ensures accept(entries[i]).value in m.values
    {
      SourceKept(entries, accept, i);
    }
  }

  /** A key of the sources is a non-empty id, holding the contents of the last entry with that id, `i`. */
  lemma {:induction false} SourceOf(entries: seq<TarEntry>, accept: TarEntry -> Option<string>, k: string)
    returns (i: nat)
    requires k in Sources(entries, accept).values
    ensures k != "" && LastWith(entries, accept, k, i) && Sources(entries, accept).values[k] == entries[i].content
    decreases |entries|
  {
    var n := |entries| - 1;
    var e := entries[n];
    if Truthy(accept(e)) && k == accept(e).value {
      i := n;
    } else {
      i := SourceOf(entries[..n], accept, k);
      LastWithExtends(entries, accept, k, i);
    }
  }

  /** Every entry with a truthy id leaves that id among the keys. */
  lemma {:induction false} SourceKept(entries: seq<TarEntry>, accept: TarEntry -> Option<string>, i: nat)
    requires i < |entries| && Truthy(accept(entries[i]))
    ensures accept(entries[i]).value in Sources(entries, accept).values
    decreases |entries|
  {
    var n := |entries| - 1;
    if i < n {
      assert entries[i] == entries[..n][i];
      SourceKept(entries[..n], accept, i);
    }
  }
}
