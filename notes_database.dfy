/**
 * The notes database of the service (service/src/NotesDatabase.ts and
 * service/src/Note.ts): the note record, the search configuration's term
 * rules, and the four structures the indexer keeps in step.
 */
module NotesDatabase {
  import opened Options
  import opened Seqs
  import opened Strs
  import opened Identities
  import opened Utf16

  // ---------------------------------------------------------------------
  // Records
  // ---------------------------------------------------------------------

  /**
   * The front matter fields the core reads. `title` is "" when absent;
   * `aliases` and `aka` are lists, a scalar value being a one-element list
   * and an absent or falsy one the empty list.
   */
  datatype FrontMatter = FrontMatter(
    public: bool,
    topic: bool,
    title: string,
    aliases: seq<string>,
    aka: seq<string>)

  /** A note record of the service (`Note`); `version` is never set by the indexer, so it is not kept. */
  datatype Note = Note(
    id: string,
    public: bool,
    topic: bool,
    aka: string,
    text: string,
    links: string,
    excerpt: string,
    title: string,
    names: string,
    frontMatter: FrontMatter)

  /**
   * The foreign parsers, as functions: gray-matter splits a source into its
   * front matter and its markdown body, and throws on the sources where
   * `parseThrows` holds (front matter it cannot parse); the markdown
   * pipeline yields the hrefs of the body's links, in document order, and
   * its plain text.
   */
  datatype Libraries = Libraries(
    parseFrontMatter: string -> (FrontMatter, string),
    parseThrows: string -> bool,
    markdown: string -> (seq<string>, string))

  // ---------------------------------------------------------------------
  // Search terms
  // ---------------------------------------------------------------------

  /** A character of the class `\w`. */
  predicate IsWordChar(c: char) {
    ('a' <= c <= 'z') || ('A' <= c <= 'Z') || ('0' <= c <= '9') || c == '_'
  }

  /** The length of the run of word characters that starts at `i`. */
  function WordRun(s: string, i: nat): (n: nat)
    requires i <= |s|
    ensures i + n <= |s|
    ensures forall k :: i <= k < i + n ==> IsWordChar(s[k])
    ensures i + n < |s| ==> !IsWordChar(s[i + n])
    decreases |s| - i
  {
    if i < |s| && IsWordChar(s[i]) then 1 + WordRun(s, i + 1) else 0
  }

  /** `string.match(/\w+/g) || []`: the maximal runs of word characters, left to right. */
  function Tokenize(s: string): (tokens: seq<string>)
    ensures forall k :: 0 <= k < |tokens| ==> tokens[k] != ""
    ensures forall k, j :: 0 <= k < |tokens| && 0 <= j < |tokens[k]| ==> IsWordChar(tokens[k][j])
    decreases |s|
  {
    if s == [] then []
    else if !IsWordChar(s[0]) then Tokenize(s[1..])
    else
      var n := WordRun(s, 0);
      var rest := Tokenize(s[n..]);
      assert forall k :: 1 <= k < |[s[..n]] + rest| ==> ([s[..n]] + rest)[k] == rest[k - 1];
      [s[..n]] + rest
  }

  lemma {:induction false} WordRunExact(s: string, i: nat, n: nat)
    requires i + n <= |s|
    requires forall k :: i <= k < i + n ==> IsWordChar(s[k])
    requires i + n < |s| ==> !IsWordChar(s[i + n])
    ensures WordRun(s, i) == n
    decreases n
  {
    if n > 0 {
      WordRunExact(s, i + 1, n - 1);
    }
  }

  /** No word character is lost or added: the tokens, concatenated, are the word characters of `s`. */
  lemma {:induction false} TokenizeKeepsWordChars(s: string)
    ensures Join(Tokenize(s), "") == Filter(s, IsWordChar)
    decreases |s|
  {
    if s != [] {
      assert s == [s[0]] + s[1..];
      FilterAppend([s[0]], s[1..], IsWordChar);
      if !IsWordChar(s[0]) {
        TokenizeKeepsWordChars(s[1..]);
      } else {
        var n := WordRun(s, 0);
        TokenizeKeepsWordChars(s[n..]);
        assert s == s[..n] + s[n..];
        FilterAppend(s[..n], s[n..], IsWordChar);
        FilterAllKept(s[..n], IsWordChar);
        JoinCons(s[..n], Tokenize(s[n..]), "");
      }
    }
  }

  lemma {:induction false} FilterAllKept(s: string, keep: char -> bool)
    requires forall k :: 0 <= k < |s| ==> keep(s[k])
    ensures Filter(s, keep) == s
  {
    if s != [] {
      FilterAllKept(s[1..], keep);
    }
  }

  lemma JoinCons(a: string, rest: seq<string>, sep: string)
    ensures Join([a] + rest, sep) == if rest == [] then a else a + sep + Join(rest, sep)
  {
    assert ([a] + rest)[1..] == rest;
  }

  /** A non-empty run of word characters. */
  predicate IsWord(w: string) {
    w != [] && forall k :: 0 <= k < |w| ==> IsWordChar(w[k])
  }

  /** Words of word characters, joined by spaces, tokenize back into the same words. */
  lemma {:induction false} TokenizeJoin(words: seq<string>)
    requires forall k :: 0 <= k < |words| ==> IsWord(words[k])
    ensures Tokenize(Join(words, " ")) == words
  {
    if words != [] {
      var w := words[0];
      var rest := words[1..];
      JoinCons(w, rest, " ");
      assert words == [w] + rest;
      assert IsWord(w);
      assert forall k :: 0 <= k < |rest| ==> IsWord(rest[k]) by {
        forall k | 0 <= k < |rest| ensures IsWord(rest[k]) { assert rest[k] == words[k + 1]; }
      }
      if rest == [] {
        TokenizeWordAlone(w, Join(words, " "));
      } else {
        TokenizeJoin(rest);
        TokenizeWordSpace(w, Join(rest, " "), Join(words, " "));
      }
    }
  }

  /** A non-empty run of word characters alone is its one token. */
  lemma TokenizeWordAlone(w: string, s: string)
    requires IsWord(w) && s == w
    ensures Tokenize(s) == [w]
  {
    TokenizeWordThen(w, "");
    assert w + "" == w;
  }

  /** A word, a space and the rest: the word, then the tokens of the rest. */
  lemma TokenizeWordSpace(w: string, r: string, s: string)
    requires IsWord(w) && s == w + " " + r
    ensures Tokenize(s) == [w] + Tokenize(r)
  {
    TokenizeWordThen(w, " " + r);
    assert (" " + r)[1..] == r;
    assert w + " " + r == w + (" " + r);
  }

  /** A word followed by nothing or by a non-word character comes first among the tokens. */
  lemma TokenizeWordThen(w: string, t: string)
    requires IsWord(w)
    requires t != [] ==> !IsWordChar(t[0])
    ensures Tokenize(w + t) == [w] + (if t == [] then [] else Tokenize(t[1..]))
  {
    var s := w + t;
    assert forall k :: 0 <= k < |w| ==> IsWordChar(s[k]);
    WordRunExact(s, 0, |w|);
    assert s[..|w|] == w && s[|w|..] == t;
  }

  /**
   * A character outside `\w` separates: the tokens of `a + [c] + b` are
   * those of `a` followed by those of `b`. With `TokenizeWordAlone`, this
   * makes the tokens the maximal runs of word characters, left to right.
   */
  lemma {:induction false} TokenizeAround(a: string, c: char, b: string)
    requires !IsWordChar(c)
    ensures Tokenize(a + [c] + b) == Tokenize(a) + Tokenize(b)
    decreases |a|
  {
    var s := a + [c] + b;
    if a == [] {
      assert s[1..] == b;
    } else if !IsWordChar(a[0]) {
      assert s[1..] == a[1..] + [c] + b;
      TokenizeAround(a[1..], c, b);
    } else {
      var m := WordRun(a, 0);
      RunBeforeSeparator(a, c, b);
      TokenizeAround(a[m..], c, b);
    }
  }

  /** The first run of `a`, ended by a separator `c` at the latest, is also the first run of `a + [c] + b`. */
  lemma RunBeforeSeparator(a: string, c: char, b: string)
    requires !IsWordChar(c)
    ensures var s, m := a + [c] + b, WordRun(a, 0);
      && WordRun(s, 0) == m && s[..m] == a[..m] && s[m..] == a[m..] + [c] + b
  {
    var s, m := a + [c] + b, WordRun(a, 0);
    assert forall k :: 0 <= k < m ==> s[k] == a[k];
    assert m < |a| ==> s[m] == a[m];
    assert m == |a| ==> s[m] == c;
    WordRunExact(s, 0, m);
    assert s[..m] == a[..m];
    assert s[m..] == a[m..] + [c] + b;
  }

  /** Terms longer than this, in UTF-16 code units (`term.length`), are not indexed. */
  const MaxTermLength := 32

  /** The English stopword list with `vs` and `recent` taken out. */
  function Stopwords(english: set<string>): (stop: set<string>)
    ensures "vs" !in stop && "recent" !in stop
    ensures forall w :: w in stop <==> w in english && w != "vs" && w != "recent"
  {
    english - {"vs", "recent"}
  }

  /**
   * `processTerm`: no term for a word that is too long or is a stopword
   * (tested on the word itself, not its stem); otherwise the stem.
   */
  function ProcessTerm(term: string, english: set<string>, stem: string -> string): (r: Option<string>)
    ensures r.None? <==> Length(term) > MaxTermLength || term in Stopwords(english)
    ensures r.Some? ==> r.value == stem(term)
  {
    if Length(term) > MaxTermLength then None
    else if term in Stopwords(english) then None
    else Some(stem(term))
  }

  // ---------------------------------------------------------------------
  // The database
  // ---------------------------------------------------------------------

  /**
   * The structures agree: a source per record, each record under its own
   * id, every record's id in the id set, and one search entry per record.
   */
  ghost predicate InStep(documents: map<string, Note>, contents: map<string, string>,
                         ids: set<string>, searchIndex: multiset<string>)
  {
    && contents.Keys == documents.Keys
    && documents.Keys <= ids
    && (forall id :: id in documents ==> documents[id].id == id)
    && searchIndex == multiset(documents.Keys)
  }

  /** Storing a record and its source, and replacing its search entry, keeps the structures in step. */
  lemma InStepAfterStore(documents: map<string, Note>, contents: map<string, string>,
                         ids: set<string>, searchIndex: multiset<string>,
                         slug: string, document: Note, source: string)
    requires InStep(documents, contents, ids, searchIndex)
    requires slug in ids && document.id == slug
    ensures InStep(documents[slug := document], contents[slug := source], ids,
                   (if slug in documents then searchIndex - multiset{slug} else searchIndex) + multiset{slug})
  {
    var stored := documents[slug := document];
    forall id | id in stored ensures stored[id].id == id {
      if id != slug {
        assert stored[id] == documents[id];
      }
    }
    if slug in documents {
      assert stored.Keys == documents.Keys;
      SetMultisetRestore(documents.Keys, slug);
    } else {
      assert stored.Keys == documents.Keys + {slug};
      SetMultisetAdd(documents.Keys, slug);
    }
  }

  lemma SetMultisetRestore(keys: set<string>, slug: string)
    requires slug in keys
    ensures multiset(keys) - multiset{slug} + multiset{slug} == multiset(keys)
  {
  }

  lemma SetMultisetAdd(keys: set<string>, slug: string)
    requires slug !in keys
    ensures multiset(keys + {slug}) == multiset(keys) + multiset{slug}
  {
  }

  /** Removing a record, its source and its search entry keeps the structures in step. */
  lemma InStepAfterRemove(documents: map<string, Note>, contents: map<string, string>,
                          ids: set<string>, searchIndex: multiset<string>, slug: string)
    requires InStep(documents, contents, ids, searchIndex) && slug in documents
    ensures InStep(documents - {slug}, contents - {slug}, ids - {slug}, searchIndex - multiset{slug})
  {
    assert (documents - {slug}).Keys == documents.Keys - {slug};
  }

  class NotesDatabase {
    /** `documentMap`: the note record of each indexed id. */
    var documentMap: map<string, Note>
    /** `contentsMap`: the source each record was derived from. */
    var contentsMap: map<string, string>
    /** `identitySet`: every id the indexer has been asked about and not unindexed. */
    const identitySet: IdentitySet<string>
    /** The MiniSearch index, as the ids of the records it holds. */
    var searchIndex: multiset<string>

    /**
     * The structures agree: a source per record, each record under its own
     * id, every record's id known to `identitySet`, and one search entry
     * per record.
     */
    ghost predicate Valid()
      reads this, identitySet
    {
      identitySet.Valid() && InStep(documentMap, contentsMap, identitySet.identities.Keys, searchIndex)
    }

    /** `new NotesDatabase()`: all four structures empty. */
    constructor ()
      ensures Valid() && fresh(identitySet)
      ensures documentMap == map[] && contentsMap == map[] && searchIndex == multiset{}
      ensures identitySet.order == [] && identitySet.identities == map[]
    {
      documentMap := map[];
      contentsMap := map[];
      identitySet := new IdentitySet();
      searchIndex := multiset{};
    }

    /** One search entry per id: exactly the ids that have a record, each once. */
    lemma OneSearchEntryPerRecord(id: string)
      requires Valid()
      ensures searchIndex[id] == if id in documentMap then 1 else 0
    {
    }
  }
}
