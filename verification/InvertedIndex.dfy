/** The full-text index: postings with positions, bulk building, and exact, phrase and fuzzy lookups. */
module InvertedIndex {
  import opened Collections
  import opened Levenshtein

  datatype DocumentId = DocumentId(node: nat, property: string)
  datatype Posting = Posting(doc: DocumentId, positions: seq<nat>)

  type Postings = map<string, seq<Posting>>

  /** The tokens of the stored texts. */
  type Documents = map<DocumentId, seq<string>>

  // ------------------------------------------------------------------- occurrences

  /** The positions of a token, ascending. */
  function Occurrences(tokens: seq<string>, t: string): seq<nat> {
    if tokens == [] then []
    else
      var n := |tokens| - 1;
      Occurrences(tokens[..n], t) + (if tokens[n] == t then [n] else [])
  }

  lemma {:induction false} OccurrencesMeans(tokens: seq<string>, t: string)
    ensures forall p: nat :: p in Occurrences(tokens, t) <==> p < |tokens| && tokens[p] == t
    decreases |tokens|
  {
    if tokens != [] {
      var n := |tokens| - 1;
      OccurrencesMeans(tokens[..n], t);
      forall p: nat ensures p in Occurrences(tokens, t) <==> p < |tokens| && tokens[p] == t {
        assert p in Occurrences(tokens, t) <==> p in Occurrences(tokens[..n], t) || (p == n && tokens[n] == t);
        if p < n {
          assert tokens[..n][p] == tokens[p];
        }
      }
    }
  }

  ghost predicate Ascending(s: seq<nat>) { forall i, j :: 0 <= i < j < |s| ==> s[i] < s[j] }

  lemma {:induction false} OccurrencesAscend(tokens: seq<string>, t: string)
    ensures Ascending(Occurrences(tokens, t))
    decreases |tokens|
  {
    if tokens != [] {
      var n := |tokens| - 1;
      var before := Occurrences(tokens[..n], t);
      OccurrencesMeans(tokens[..n], t);
      OccurrencesAscend(tokens[..n], t);
      assert forall i :: 0 <= i < |before| ==> before[i] in before;
    }
  }

  lemma OccurrencesSome(tokens: seq<string>, t: string)
    ensures Occurrences(tokens, t) != [] <==> t in tokens
  {
    OccurrencesMeans(tokens, t);
    if t in tokens {
      var p :| 0 <= p < |tokens| && tokens[p] == t;
      assert p in Occurrences(tokens, t);
    }
    if Occurrences(tokens, t) != [] {
      assert Occurrences(tokens, t)[0] in Occurrences(tokens, t);
    }
  }

  /** Number the tokens and group the numbers by token. */
  method PositionMap(tokens: seq<string>) returns (m: map<string, seq<nat>>)
    ensures m.Keys == Elems(tokens)
    ensures forall t :: t in m ==> m[t] == Occurrences(tokens, t) && Ascending(m[t])
  {
    m := map[];
    for i := 0 to |tokens|
      invariant m.Keys == Elems(tokens[..i])
      invariant forall t :: t in m ==> m[t] == Occurrences(tokens[..i], t)
    {
      var token := tokens[i];
      assert tokens[..i + 1][..i] == tokens[..i] && tokens[..i + 1] == tokens[..i] + [token];
      if token !in m {
        OccurrencesSome(tokens[..i], token);
      }
      m := m[token := (if token in m then m[token] else []) + [i]];
    }
    assert tokens[..|tokens|] == tokens;
    forall t | t in m ensures Ascending(m[t]) {
      OccurrencesAscend(tokens, t);
    }
  }

  // ----------------------------------------------------------------- posting lists

  function Find(list: seq<Posting>, d: DocumentId): Option<seq<nat>> {
    if list == [] then None
    else if list[0].doc == d then Some(list[0].positions)
    else Find(list[1..], d)
  }

  function ListOf(index: Postings, t: string): seq<Posting> { if t in index then index[t] else [] }

  function Lookup(index: Postings, t: string, d: DocumentId): Option<seq<nat>> { Find(ListOf(index, t), d) }

  /** The list without the postings of a document. */
  function Others(list: seq<Posting>, d: DocumentId): seq<Posting> {
    if list == [] then []
    else if list[0].doc == d then Others(list[1..], d)
    else [list[0]] + Others(list[1..], d)
  }

  lemma {:induction false} FindOthers(list: seq<Posting>, d: DocumentId, x: DocumentId)
    ensures Find(Others(list, d), x) == if x == d then None else Find(list, x)
    decreases |list|
  {
    if list != [] {
      FindOthers(list[1..], d, x);
      if list[0].doc != d {
        assert Others(list, d)[1..] == Others(list[1..], d);
      }
    }
  }

  lemma {:induction false} FindAppend(list: seq<Posting>, p: Posting, x: DocumentId)
    ensures Find(list + [p], x) ==
      if Find(list, x).Some? then Find(list, x) else if x == p.doc then Some(p.positions) else None
    decreases |list|
  {
    if list == [] {
      assert (list + [p])[1..] == [];
    } else {
      FindAppend(list[1..], p, x);
      assert (list + [p])[1..] == list[1..] + [p];
    }
  }

  lemma {:induction false} FindSome(list: seq<Posting>, x: DocumentId)
    ensures Find(list, x).Some? <==> exists i :: 0 <= i < |list| && list[i].doc == x
    decreases |list|
  {
    if list != [] {
      FindSome(list[1..], x);
      if list[0].doc != x && exists i :: 0 <= i < |list| && list[i].doc == x {
        var i :| 0 <= i < |list| && list[i].doc == x;
        assert list[1..][i - 1].doc == x;
      }
      if Find(list[1..], x).Some? {
        var i :| 0 <= i < |list[1..]| && list[1..][i].doc == x;
        assert list[i + 1].doc == x;
      }
    }
  }

  // ------------------------------------------------------------- agreement with the texts

  function Expected(docs: Documents, t: string, d: DocumentId): Option<seq<nat>> {
    if d in docs && t in docs[d] then Some(Occurrences(docs[d], t)) else None
  }

  /** For one document, the postings are exactly the token positions of its stored text. */
  ghost predicate AgreesAt(index: Postings, docs: Documents, d: DocumentId) {
    forall t :: Lookup(index, t, d) == Expected(docs, t, d)
  }

  ghost predicate Agrees(index: Postings, docs: Documents) {
    forall d :: AgreesAt(index, docs, d)
  }

  /** A token's list with the document's posting replaced. */
  function Rewritten(index: Postings, d: DocumentId, tokens: seq<string>, t: string): seq<Posting> {
    Others(ListOf(index, t), d) + [Posting(d, Occurrences(tokens, t))]
  }

  /** The postings after a document was written. */
  ghost predicate Written(index: Postings, d: DocumentId, tokens: seq<string>, after: Postings) {
    && after.Keys == index.Keys + Elems(tokens)
    && forall t :: t in after ==>
      after[t] == if t in tokens then Rewritten(index, d, tokens, t) else ListOf(index, t)
  }

  lemma WrittenLookup(index: Postings, d: DocumentId, tokens: seq<string>, after: Postings, t: string, x: DocumentId)
    requires Written(index, d, tokens, after)
    ensures Lookup(after, t, x) == if x == d && t in tokens then Some(Occurrences(tokens, t)) else Lookup(index, t, x)
  {
    if t in tokens {
      assert t in after;
      FindOthers(ListOf(index, t), d, x);
      FindAppend(Others(ListOf(index, t), d), Posting(d, Occurrences(tokens, t)), x);
    } else if t in after {
      assert after[t] == ListOf(index, t);
    }
  }

  /** Writing a document keeps the other documents right, and makes its own postings right exactly when
      no posting of an earlier text survives, that is when the new text has every token the document
      was listed under. */
  lemma WrittenAgrees(index: Postings, docs: Documents, d: DocumentId, tokens: seq<string>, after: Postings)
    requires Written(index, d, tokens, after)
    ensures forall x :: x != d && AgreesAt(index, docs, x) ==> AgreesAt(after, docs[d := tokens], x)
    ensures AgreesAt(after, docs[d := tokens], d) <==> forall t :: Lookup(index, t, d).Some? ==> t in tokens
  {
    hide Written, Lookup;
    forall t, x
      ensures Lookup(after, t, x) == if x == d && t in tokens then Some(Occurrences(tokens, t)) else Lookup(index, t, x)
    {
      WrittenLookup(index, d, tokens, after, t, x);
    }
    if t :| Lookup(index, t, d).Some? && t !in tokens {
      assert Lookup(after, t, d).Some? && Expected(docs[d := tokens], t, d) == None;
    }
  }

  /** From an index that agrees with the texts: it still does exactly when the document is new or its new
      text has every token of the old one. */
  lemma WrittenAgreesIff(index: Postings, docs: Documents, d: DocumentId, tokens: seq<string>, after: Postings)
    requires Agrees(index, docs) && Written(index, d, tokens, after)
    ensures Agrees(after, docs[d := tokens]) <==> (d in docs ==> forall t :: t in docs[d] ==> t in tokens)
  {
    hide Written, Lookup;
    WrittenAgrees(index, docs, d, tokens, after);
    var stored := docs[d := tokens];
    forall x | x != d ensures AgreesAt(after, stored, x) {
      assert AgreesAt(index, docs, x);
    }
    assert AgreesAt(index, docs, d);
    forall t ensures Lookup(index, t, d).Some? <==> d in docs && t in docs[d] {
      assert Lookup(index, t, d) == Expected(docs, t, d);
    }
    hide AgreesAt;
    assert Agrees(after, stored) <==> AgreesAt(after, stored, d);
  }

  ghost predicate Erased(index: Postings, d: DocumentId, after: Postings) {
    forall t :: ListOf(after, t) == Others(ListOf(index, t), d)
  }

  /** Drop the document from every list, and the lists that become empty. */
  function Erase(index: Postings, d: DocumentId): Postings {
    map t | t in index && Others(index[t], d) != [] :: Others(index[t], d)
  }

  lemma EraseMeans(index: Postings, d: DocumentId)
    ensures Erased(index, d, Erase(index, d)) && forall t :: t in Erase(index, d) ==> Erase(index, d)[t] != []
  {
  }

  lemma AgreesEverywhere(index: Postings, docs: Documents, after: Postings, less: Documents, d: DocumentId)
    requires AgreesAt(after, less, d) && forall x :: x != d && AgreesAt(index, docs, x) ==> AgreesAt(after, less, x)
    ensures Agrees(index, docs) ==> Agrees(after, less)
  {
    hide AgreesAt;
  }

  /** Removing a document also removes what earlier texts of it left behind. */
  lemma ErasedAgrees(index: Postings, docs: Documents, d: DocumentId, after: Postings)
    requires Erased(index, d, after)
    ensures AgreesAt(after, docs - {d}, d)
    ensures forall x :: x != d && AgreesAt(index, docs, x) ==> AgreesAt(after, docs - {d}, x)
  {
    forall t, x ensures Lookup(after, t, x) == if x == d then None else Lookup(index, t, x) {
      FindOthers(ListOf(index, t), d, x);
    }
    hide Erased, Lookup;
  }

  // --------------------------------------------------------------------------- totals

  ghost function Total(lengths: map<DocumentId, nat>): nat
    decreases |lengths.Keys|
  {
    if lengths.Keys == {} then 0
    else
      var d :| d in lengths;
      Fewer(lengths, d);
      lengths[d] + Total(lengths - {d})
  }

  lemma Fewer(lengths: map<DocumentId, nat>, d: DocumentId)
    requires d in lengths
    ensures (lengths - {d}).Keys == lengths.Keys - {d} && |(lengths - {d}).Keys| < |lengths.Keys|
  {
    assert (lengths - {d}).Keys == lengths.Keys - {d};
  }

  lemma {:induction false} TotalPick(lengths: map<DocumentId, nat>, d: DocumentId)
    requires d in lengths
    ensures Total(lengths) == lengths[d] + Total(lengths - {d})
    decreases |lengths.Keys|
  {
    assert lengths.Keys != {};
    var x :| x in lengths && Total(lengths) == lengths[x] + Total(lengths - {x});
    if x != d {
      Fewer(lengths, x);
      Fewer(lengths, d);
      TotalPick(lengths - {x}, d);
      TotalPick(lengths - {d}, x);
      assert lengths - {x} - {d} == lengths - {d} - {x};
    }
  }

  lemma TotalPut(lengths: map<DocumentId, nat>, d: DocumentId, n: nat)
    ensures Total(lengths[d := n]) == n + Total(lengths) - (if d in lengths then lengths[d] else 0)
    ensures d in lengths ==> lengths[d] <= Total(lengths)
  {
    TotalPick(lengths[d := n], d);
    assert lengths[d := n] - {d} == lengths - {d};
    if d in lengths {
      TotalPick(lengths, d);
    } else {
      assert lengths - {d} == lengths;
    }
  }

  // ------------------------------------------------------------------------- the index

  datatype Contents = Contents(index: Postings, lengths: map<DocumentId, nat>, totalDocs: nat, totalLength: nat)

  /** The totals describe the stored documents. */
  ghost predicate Counted(c: Contents, docs: Documents) {
    && c.lengths == LengthsOf(docs)
    && c.totalDocs == |docs| && c.totalLength == Total(c.lengths)
  }

  function LengthsOf(docs: Documents): map<DocumentId, nat> { map d | d in docs :: |docs[d]| }

  /** What one addition does to the contents, whatever they are. */
  ghost predicate Added(before: Contents, d: DocumentId, tokens: seq<string>, after: Contents) {
    && Written(before.index, d, tokens, after.index)
    && after.lengths == before.lengths[d := |tokens|]
    && after.totalDocs == before.totalDocs + (if d in before.lengths then 0 else 1)
    && after.totalLength + (if d in before.lengths then before.lengths[d] else 0) == before.totalLength + |tokens|
  }

  /** An addition has one outcome, however the tokens are visited. */
  lemma AddedIsFunctional(before: Contents, d: DocumentId, tokens: seq<string>, a: Contents, b: Contents)
    requires Added(before, d, tokens, a) && Added(before, d, tokens, b)
    ensures a == b
  {
    assert a.index == b.index;
  }

  lemma CountedPut(c: Contents, docs: Documents, d: DocumentId, tokens: seq<string>, after: Contents)
    requires Counted(c, docs) && Added(c, d, tokens, after)
    ensures Counted(after, docs[d := tokens])
  {
    hide Written, Total;
    TotalPut(c.lengths, d, |tokens|);
    LengthsPut(docs, d, tokens);
    hide LengthsOf;
    if d in docs {
      assert docs[d := tokens].Keys == docs.Keys;
    } else {
      assert docs[d := tokens].Keys == docs.Keys + {d};
    }
  }

  lemma LengthsPut(docs: Documents, d: DocumentId, tokens: seq<string>)
    ensures LengthsOf(docs[d := tokens]) == LengthsOf(docs)[d := |tokens|] && LengthsOf(docs).Keys == docs.Keys
  {
  }

  lemma CountedLength(c: Contents, docs: Documents, d: DocumentId)
    requires Counted(c, docs)
    ensures d in c.lengths ==> c.lengths[d] <= c.totalLength
  {
    TotalPut(c.lengths, d, 0);
  }

  lemma CountedAnyIndex(c: Contents, docs: Documents, index: Postings)
    ensures Counted(c, docs) <==> Counted(c.(index := index), docs)
  {
  }

  lemma CountedRemove(c: Contents, docs: Documents, d: DocumentId)
    requires Counted(c, docs) && d in docs
    ensures d in c.lengths && c.totalDocs >= 1 && c.totalLength >= c.lengths[d]
    ensures Counted(c.(lengths := c.lengths - {d}, totalDocs := c.totalDocs - 1,
                       totalLength := c.totalLength - c.lengths[d]), docs - {d})
  {
    TotalPick(c.lengths, d);
    assert LengthsOf(docs - {d}) == LengthsOf(docs) - {d};
    assert (docs - {d}).Keys == docs.Keys - {d};
  }

  function SaturatingSub(a: nat, b: nat): nat { if a >= b then a - b else 0 }

  datatype Document = Document(id: DocumentId, text: string)

  class InvertedIndex {
    const tokenize: string -> seq<string>
    var index: Postings
    var docLengths: map<DocumentId, nat>
    var totalDocs: nat
    var totalLength: nat

    /** The tokens of the text last stored for each document. */
    ghost var docs: Documents

    ghost function State(): Contents
      reads this
    {
      Contents(index, docLengths, totalDocs, totalLength)
    }

    ghost predicate Valid()
      reads this
    {
      Counted(State(), docs)
    }

    constructor (tokenize: string -> seq<string>)
      ensures Valid() && this.tokenize == tokenize && docs == map[] && Agrees(index, docs)
    {
      this.tokenize, index, docLengths, totalDocs, totalLength, docs := tokenize, map[], map[], 0, 0, map[];
    }

    method AddDocument(d: DocumentId, text: string)
      requires Valid()
      modifies this
      ensures Valid() && docs == old(docs)[d := tokenize(text)]
      ensures Added(old(State()), d, tokenize(text), State())
      ensures old(Agrees(index, docs)) ==>
        (Agrees(index, docs) <==> (d in old(docs) ==> forall t :: t in old(docs)[d] ==> t in tokenize(text)))
    {
      hide Agrees, Counted;
      Write(d, tokenize(text));
      if old(Agrees(index, docs)) {
        WrittenAgreesIff(old(index), old(docs), d, tokenize(text), index);
      }
    }

    /** Enter a tokenized document. */
    method Write(d: DocumentId, tokens: seq<string>)
      requires Valid()
      modifies this
      ensures Valid() && docs == old(docs)[d := tokens] && Added(old(State()), d, tokens, State())
    {
      hide Counted, Written, Total, LengthsOf;
      ghost var before := State();
      CountedLength(before, docs, d);
      if d !in docLengths {
        totalDocs := totalDocs + 1;
      } else {
        totalLength := totalLength - docLengths[d];
      }
      docLengths := docLengths[d := |tokens|];
      totalLength := totalLength + |tokens|;
      WriteTokens(d, tokens);
      CountedPut(before, docs, d, tokens, State());
      docs := docs[d := tokens];
    }

    /** Replace the document's posting under each of its tokens, in any order. */
    method WriteTokens(d: DocumentId, tokens: seq<string>)
      modifies this`index
      ensures Written(old(index), d, tokens, index)
    {
      hide Others, Occurrences;
      var positions := PositionMap(tokens);
      ghost var before := index;
      var todo := positions.Keys;
      while todo != {}
        invariant todo <= Elems(tokens) && index.Keys == before.Keys + (Elems(tokens) - todo)
        invariant forall t :: t in index ==>
          index[t] == if t in tokens && t !in todo then Rewritten(before, d, tokens, t) else ListOf(before, t)
      {
        var token :| token in todo;
        var entry := if token in index then index[token] else [];
        assert entry == ListOf(before, token);
        index := index[token := Others(entry, d) + [Posting(d, positions[token])]];
        todo := todo - {token};
      }
    }

    /** Bulk building leaves the same contents as adding the documents one by one. */
    method BuildIndex(documents: seq<Document>)
      requires Valid()
      modifies this
      ensures Valid() && AddedAll(tokenize, old(State()), documents, State())
      ensures docs == StoredAll(tokenize, old(docs), documents)
    {
      hide Counted, Added;
      var tokenized: seq<(DocumentId, seq<string>)> := [];
      for i := 0 to |documents|
        invariant |tokenized| == i
        invariant forall j :: 0 <= j < i ==> tokenized[j] == (documents[j].id, tokenize(documents[j].text))
      {
        tokenized := tokenized + [(documents[i].id, tokenize(documents[i].text))];
      }
      for i := 0 to |tokenized|
        invariant Valid() && AddedAll(tokenize, old(State()), documents[..i], State())
        invariant docs == StoredAll(tokenize, old(docs), documents[..i])
      {
        ghost var before := State();
        Write(tokenized[i].0, tokenized[i].1);
        AddedAllStep(tokenize, old(State()), documents, i, before, State());
        assert documents[..i + 1][..i] == documents[..i];
      }
      assert documents[..|documents|] == documents;
    }

    method AddOneByOne(documents: seq<Document>)
      requires Valid()
      modifies this
      ensures Valid() && AddedAll(tokenize, old(State()), documents, State())
      ensures docs == StoredAll(tokenize, old(docs), documents)
    {
      hide Counted, Added, Agrees;
      for i := 0 to |documents|
        invariant Valid() && AddedAll(tokenize, old(State()), documents[..i], State())
        invariant docs == StoredAll(tokenize, old(docs), documents[..i])
      {
        ghost var before := State();
        AddDocument(documents[i].id, documents[i].text);
        AddedAllStep(tokenize, old(State()), documents, i, before, State());
        assert documents[..i + 1][..i] == documents[..i];
      }
      assert documents[..|documents|] == documents;
    }

    /** Whatever was left over from earlier texts of the document goes too. */
    method RemoveDocument(d: DocumentId)
      requires Valid()
      modifies this
      ensures Valid() && docs == old(docs) - {d} && AgreesAt(index, docs, d)
      ensures forall x :: x != d && old(AgreesAt(index, docs, x)) ==> AgreesAt(index, docs, x)
      ensures old(Agrees(index, docs)) ==> Agrees(index, docs)
      ensures forall t :: t in index ==> index[t] != []
    {
      hide *;
      ghost var before, stored := index, docs;
      ValidCounted();
      ForgetLength(d);
      EraseMeans(index, d);
      CountedAnyIndex(State(), docs - {d}, Erase(index, d));
      index := Erase(index, d);
      docs := docs - {d};
      CountedValid();
      ErasedAgrees(before, stored, d, index);
      AgreesEverywhere(before, stored, index, docs, d);
    }

    lemma ValidCounted()
      requires Valid()
      ensures Counted(State(), docs)
    {
    }

    lemma CountedValid()
      requires Counted(Contents(index, docLengths, totalDocs, totalLength), docs)
      ensures Valid()
    {
    }

    /** Take a document out of the totals. */
    method ForgetLength(d: DocumentId)
      requires Counted(State(), docs)
      modifies this`docLengths, this`totalDocs, this`totalLength
      ensures Counted(State(), docs - {d}) && State().index == old(State().index)
      ensures State() == Contents(index, docLengths, totalDocs, totalLength)
    {
      LengthsPut(docs, d, []);
      assert docLengths.Keys == docs.Keys;
      ghost var before := State();
      hide Counted, Total, LengthsOf;
      if d in docLengths {
        CountedRemove(before, docs, d);
        totalDocs := SaturatingSub(totalDocs, 1);
        totalLength := SaturatingSub(totalLength, docLengths[d]);
        docLengths := docLengths - {d};
      } else {
        assert docs - {d} == docs;
      }
    }

    /** The documents with a token. */
    method DocumentsWithToken(t: string) returns (r: set<DocumentId>)
      ensures forall d :: d in r <==> Lookup(index, t, d).Some?
      ensures forall d :: AgreesAt(index, docs, d) ==> (d in r <==> d in docs && t in docs[d])
      ensures Agrees(index, docs) ==> r == WithToken(docs, t)
    {
      var list := ListOf(index, t);
      r := set i | 0 <= i < |list| :: list[i].doc;
      forall x ensures x in r <==> Lookup(index, t, x).Some? {
        FindSome(list, x);
      }
      hide Lookup;
      forall x | AgreesAt(index, docs, x) ensures x in r <==> x in docs && t in docs[x] {
        assert Lookup(index, t, x) == Expected(docs, t, x);
      }
    }

    /** The tokens stand in the document one right after the other. */
    method IsPhraseInDoc(tokens: seq<string>, d: DocumentId) returns (r: bool)
      requires AgreesAt(index, docs, d)
      ensures r <==> tokens != [] && d in docs && HoldsPhrase(docs[d], tokens)
    {
      if tokens == [] {
        return false;
      }
      hide Lookup, Occurrences;
      if |tokens| == 1 {
        assert Lookup(index, tokens[0], d) == Expected(docs, tokens[0], d);
        r := Lookup(index, tokens[0], d).Some?;
        if d in docs {
          OneTokenPhrase(docs[d], tokens);
        }
        return;
      }
      var first := Lookup(index, tokens[0], d);
      assert first == Expected(docs, tokens[0], d);
      if first.None? {
        if d in docs && HoldsPhrase(docs[d], tokens) {
          PhraseTokens(docs[d], tokens);
        }
        return false;
      }
      OccurrencesMeans(docs[d], tokens[0]);
      for i := 0 to |first.value|
        invariant forall j :: 0 <= j < i ==> !PhraseAt(docs[d], tokens, first.value[j])
      {
        assert first.value[i] in first.value;
        var all := RestFollows(tokens, d, first.value[i]);
        if all {
          PhraseHere(docs[d], tokens, first.value[i]);
          return true;
        }
      }
      NoStart(docs[d], tokens, first.value);
      r := false;
    }

    method RestFollows(tokens: seq<string>, d: DocumentId, start: nat) returns (all: bool)
      requires AgreesAt(index, docs, d) && d in docs && tokens != []
      requires start < |docs[d]| && tokens[0] == docs[d][start]
      ensures all <==> PhraseAt(docs[d], tokens, start)
    {
      hide Lookup, Occurrences;
      for offset := 1 to |tokens|
        invariant start + offset <= |docs[d]| && forall o :: 0 <= o < offset ==> tokens[o] == docs[d][start + o]
      {
        var positions := Lookup(index, tokens[offset], d);
        assert positions == Expected(docs, tokens[offset], d);
        OccurrencesMeans(docs[d], tokens[offset]);
        if !(positions.Some? && start + offset in positions.value) {
          assert !(start + offset < |docs[d]| && docs[d][start + offset] == tokens[offset]);
          return false;
        }
      }
      all := true;
    }

    /** A quoted query finds exactly the nodes with a document that holds the phrase. */
    method ContainsPhrase(phrase: string) returns (r: set<nat>)
      requires Agrees(index, docs)
      ensures r == set d | d in docs && tokenize(phrase) != [] && HoldsPhrase(docs[d], tokenize(phrase)) :: d.node
    {
      hide Agrees;
      var tokens := tokenize(phrase);
      if tokens == [] {
        return {};
      }
      var candidates := DocumentsWithAll(tokens);
      ghost var found: set<DocumentId> := {};
      r := {};
      var todo := candidates;
      while todo != {}
        invariant todo <= candidates
        invariant found == (set d | d in candidates - todo && d in docs && HoldsPhrase(docs[d], tokens))
        invariant r == set d | d in found :: d.node
      {
        var d :| d in todo;
        AgreesHere(index, docs, d);
        var holds := IsPhraseInDoc(tokens, d);
        if holds {
          r := r + {d.node};
          found := found + {d};
        }
        todo := todo - {d};
      }
      forall d | d in docs && HoldsPhrase(docs[d], tokens) ensures d in candidates {
        PhraseTokens(docs[d], tokens);
      }
      assert found == set d | d in docs && HoldsPhrase(docs[d], tokens);
    }

    /** Intersect the documents of all the tokens. */
    method DocumentsWithAll(tokens: seq<string>) returns (r: set<DocumentId>)
      requires Agrees(index, docs) && tokens != []
      ensures r == set d | d in docs && HasAll(docs[d], tokens)
    {
      hide Agrees;
      r := DocumentsWithToken(tokens[0]);
      for i := 1 to |tokens|
        invariant r == set d | d in docs && forall j :: 0 <= j < i ==> tokens[j] in docs[d]
      {
        var more := DocumentsWithToken(tokens[i]);
        r := r * more;
      }
    }

    /** A plain query finds exactly the nodes with a document that has all its tokens. */
    method ContainsAll(query: string) returns (r: set<nat>)
      requires Agrees(index, docs)
      ensures r == set d | d in docs && tokenize(query) != [] && HasAll(docs[d], tokenize(query)) :: d.node
    {
      hide Agrees;
      var tokens := tokenize(query);
      if tokens == [] {
        return {};
      }
      var found := DocumentsWithAll(tokens);
      r := set d | d in found :: d.node;
    }

    /** A fuzzy query finds exactly the nodes with a document that has a token within the edit distance. */
    method ContainsFuzzy(term: string, most: nat) returns (r: set<nat>)
      requires Agrees(index, docs)
      ensures r == set d | d in docs && (exists t :: t in docs[d] && Distance(term, t) <= most) :: d.node
    {
      hide Agrees, Distance;
      var found: set<DocumentId> := {};
      var todo := index.Keys;
      while todo != {}
        invariant todo <= index.Keys
        invariant found == set d | d in docs && CloseToken(docs[d], term, most, index.Keys - todo)
      {
        var t :| t in todo;
        var distance := LevenshteinDistance(term, t);
        if distance <= most {
          var listed := DocumentsWithToken(t);
          found := found + listed;
        }
        CloseTokenMore(docs, term, most, index.Keys - todo, t);
        todo := todo - {t};
        assert index.Keys - todo == index.Keys - (todo + {t}) + {t};
      }
      assert index.Keys - {} == index.Keys;
      ListedTokens(index, docs);
      forall d | d in docs
        ensures CloseToken(docs[d], term, most, index.Keys) <==> exists t :: t in docs[d] && Distance(term, t) <= most
      {
      }
      r := set d | d in found :: d.node;
    }
  }

  // ------------------------------------------------------------------------ many documents

  ghost predicate AddedAll(tokenize: string -> seq<string>, before: Contents, documents: seq<Document>, after: Contents)
    decreases |documents|
  {
    if documents == [] then after == before
    else
      var n := |documents| - 1;
      exists mid :: AddedAll(tokenize, before, documents[..n], mid) &&
        Added(mid, documents[n].id, tokenize(documents[n].text), after)
  }

  lemma AddedAllStep(tokenize: string -> seq<string>, before: Contents, documents: seq<Document>, i: nat,
                     mid: Contents, after: Contents)
    requires i < |documents| && AddedAll(tokenize, before, documents[..i], mid)
    requires Added(mid, documents[i].id, tokenize(documents[i].text), after)
    ensures AddedAll(tokenize, before, documents[..i + 1], after)
  {
    assert documents[..i + 1][..i] == documents[..i];
  }

  /** Adding documents in a given order has one outcome: bulk building and adding one by one agree. */
  lemma {:induction false} AddedAllIsFunctional(tokenize: string -> seq<string>, before: Contents,
                                                documents: seq<Document>, a: Contents, b: Contents)
    requires AddedAll(tokenize, before, documents, a) && AddedAll(tokenize, before, documents, b)
    ensures a == b
    decreases |documents|
  {
    hide Added;
    if documents != [] {
      var n := |documents| - 1;
      var x :| AddedAll(tokenize, before, documents[..n], x) &&
        Added(x, documents[n].id, tokenize(documents[n].text), a);
      var y :| AddedAll(tokenize, before, documents[..n], y) &&
        Added(y, documents[n].id, tokenize(documents[n].text), b);
      AddedAllIsFunctional(tokenize, before, documents[..n], x, y);
      AddedIsFunctional(x, documents[n].id, tokenize(documents[n].text), a, b);
    }
  }

  /** A batch of new documents with different ids keeps the postings in agreement with the texts. */
  lemma {:induction false} BatchAgrees(tokenize: string -> seq<string>, before: Contents, docs: Documents,
                                       documents: seq<Document>, after: Contents)
    requires Agrees(before.index, docs) && AddedAll(tokenize, before, documents, after)
    requires forall i :: 0 <= i < |documents| ==> documents[i].id !in docs
    requires forall i, j :: 0 <= i < j < |documents| ==> documents[i].id != documents[j].id
    ensures Agrees(after.index, StoredAll(tokenize, docs, documents))
    ensures forall d :: d in StoredAll(tokenize, docs, documents) ==>
      d in docs || exists i :: 0 <= i < |documents| && documents[i].id == d
    decreases |documents|
  {
    hide Agrees, Written;
    if documents != [] {
      var n := |documents| - 1;
      var mid :| AddedAll(tokenize, before, documents[..n], mid) &&
        Added(mid, documents[n].id, tokenize(documents[n].text), after);
      BatchAgrees(tokenize, before, docs, documents[..n], mid);
      var stored := StoredAll(tokenize, docs, documents[..n]);
      forall d | d in stored ensures d in docs || exists i :: 0 <= i < n && documents[i].id == d {
        if d !in docs {
          var i :| 0 <= i < |documents[..n]| && documents[..n][i].id == d;
          assert documents[i].id == d;
        }
      }
      assert documents[n].id !in stored;
      WrittenAgreesIff(mid.index, stored, documents[n].id, tokenize(documents[n].text), after.index);
    }
  }

  ghost function StoredAll(tokenize: string -> seq<string>, docs: Documents, documents: seq<Document>): Documents {
    if documents == [] then docs
    else
      var n := |documents| - 1;
      StoredAll(tokenize, docs, documents[..n])[documents[n].id := tokenize(documents[n].text)]
  }

  // ------------------------------------------------------------------------------ queries

  ghost function WithToken(docs: Documents, t: string): set<DocumentId> { set d | d in docs && t in docs[d] }

  lemma AgreesHere(index: Postings, docs: Documents, d: DocumentId)
    requires Agrees(index, docs)
    ensures AgreesAt(index, docs, d)
  {
  }

  ghost predicate HasAll(text: seq<string>, tokens: seq<string>) { forall t :: t in tokens ==> t in text }

  ghost predicate PhraseAt(text: seq<string>, tokens: seq<string>, start: nat) {
    start + |tokens| <= |text| && forall o :: 0 <= o < |tokens| ==> tokens[o] == text[start + o]
  }

  ghost predicate WindowIs(text: seq<string>, start: nat, tokens: seq<string>) {
    start + |tokens| <= |text| && text[start..start + |tokens|] == tokens
  }

  /** The tokens are a contiguous part of the text. */
  ghost predicate HoldsPhrase(text: seq<string>, tokens: seq<string>) {
    exists start: nat :: WindowIs(text, start, tokens)
  }

  lemma PhraseAtMeans(text: seq<string>, tokens: seq<string>, start: nat)
    ensures WindowIs(text, start, tokens) <==> PhraseAt(text, tokens, start)
  {
    if WindowIs(text, start, tokens) {
      forall o | 0 <= o < |tokens| ensures tokens[o] == text[start + o] {
        assert text[start..start + |tokens|][o] == text[start + o];
      }
    }
  }

  lemma PhraseHere(text: seq<string>, tokens: seq<string>, start: nat)
    requires PhraseAt(text, tokens, start)
    ensures HoldsPhrase(text, tokens)
  {
    PhraseAtMeans(text, tokens, start);
  }

  lemma OneTokenPhrase(text: seq<string>, tokens: seq<string>)
    requires |tokens| == 1
    ensures HoldsPhrase(text, tokens) <==> tokens[0] in text
  {
    if tokens[0] in text {
      var i :| 0 <= i < |text| && text[i] == tokens[0];
      PhraseHere(text, tokens, i);
    }
    if HoldsPhrase(text, tokens) {
      PhraseTokens(text, tokens);
    }
  }

  lemma PhraseTokens(text: seq<string>, tokens: seq<string>)
    requires HoldsPhrase(text, tokens)
    ensures forall t :: t in tokens ==> t in text
  {
    var start: nat :| WindowIs(text, start, tokens);
    PhraseAtMeans(text, tokens, start);
  }

  lemma NoStart(text: seq<string>, tokens: seq<string>, starts: seq<nat>)
    requires tokens != [] && (forall p: nat :: p < |text| && text[p] == tokens[0] ==> p in starts)
    requires forall j :: 0 <= j < |starts| ==> !PhraseAt(text, tokens, starts[j])
    ensures !HoldsPhrase(text, tokens)
  {
    forall start: nat ensures !WindowIs(text, start, tokens) {
      PhraseAtMeans(text, tokens, start);
      if start in starts {
        var j :| 0 <= j < |starts| && starts[j] == start;
      } else if start < |text| {
        assert text[start] != tokens[0];
      }
    }
  }

  ghost predicate CloseToken(text: seq<string>, term: string, most: nat, among: set<string>) {
    exists t :: t in among && t in text && Distance(term, t) <= most
  }

  lemma CloseTokenMore(docs: Documents, term: string, most: nat, among: set<string>, t: string)
    ensures forall d :: d in docs ==>
      (CloseToken(docs[d], term, most, among + {t}) <==>
       CloseToken(docs[d], term, most, among) || (t in docs[d] && Distance(term, t) <= most))
  {
    hide Distance;
  }

  lemma ListedTokens(index: Postings, docs: Documents)
    requires Agrees(index, docs)
    ensures forall d, t :: d in docs && t in docs[d] ==> t in index
  {
    forall d, t | d in docs && t in docs[d] ensures t in index {
      assert AgreesAt(index, docs, d);
      assert Lookup(index, t, d) == Expected(docs, t, d);
    }
  }
}
