/** The interactive session: each line read is trimmed and lower-cased and
    names one of five commands. `load` indexes the fragments of every listed
    document, `query` answers a question from the best-ranked fragments,
    `update` and `delete` edit one fragment by id, and `exit` ends the
    session. The collection, the document listing and the two language
    model services are outside the program; their answers are given to each
    command as parameters. */
module SessionControl {
  import opened Text
  import opened FragmentIds
  import opened Chunker
  import opened ContextAssembly
  import opened FragmentStore

  /** Words per fragment. */
  const ChunkSize: nat := 400
  /** The overlap between consecutive fragments, 0.25, as the fraction 1/4. */
  const OverlapNum: int := 1
  const OverlapDen: int := 4
  /** Most fragments asked of the collection per question. */
  const TopK: nat := 10

  function Min(a: int, b: int): (m: int)
    ensures m <= a && m <= b
    ensures m == a || m == b
  {
    if a < b then a else b
  }

  /** With the program's constants a window of 400 words advances by 300. */
  lemma StepOfConstants()
    ensures RawStep(ChunkSize, OverlapNum, OverlapDen) == 300
    ensures Stride(ChunkSize, RawStep(ChunkSize, OverlapNum, OverlapDen)) == 300
  {
  }

  // ---------------------------------------------------------------- commands

  datatype Command = Load | Query | Update | Delete | Exit | Unrecognized

  /** The literal that selects a command. */
  function Keyword(c: Command): string {
    match c
    case Load => "load"
    case Query => "query"
    case Update => "update"
    case Delete => "delete"
    case Exit => "exit"
    case Unrecognized => ""
  }

  /** The command each literal selects. */
  const Keywords: map<string, Command> :=
    map["load" := Load, "query" := Query, "update" := Update, "delete" := Delete, "exit" := Exit]

  /** The command a line selects, once trimmed and lower-cased. */
  function ParseCommand(line: string): Command {
    var cmd := TrimSpace(ToLower(line));
    if cmd in Keywords then Keywords[cmd] else Unrecognized
  }

  /** Each keyword selects its command. */
  lemma KeywordParses(c: Command)
    requires c != Unrecognized
    ensures ParseCommand(Keyword(c)) == c
  {
    var k := Keyword(c);
    assert k in Keywords && Keywords[k] == c;
    KeywordIsNormal(k);
  }

  /** Each keyword is lower-case and has no surrounding white space. */
  lemma KeywordIsNormal(k: string)
    requires k in Keywords
    ensures TrimSpace(ToLower(k)) == k
  {
    ToLowerOfLower(k);
    TrimSpaceOfTrimmed(k);
  }

  /** A capital I with a dot above lower-cases to 'i', so "EXİT" ends the
      session like "exit". */
  lemma DottedCapitalISelectsExit()
    ensures ParseCommand("EX\U{0130}T") == Exit
  {
    var line := "EX\U{0130}T";
    var lower := ToLower(line);
    assert lower[0] == 'e' && lower[1] == 'x' && lower[2] == 'i' && lower[3] == 't';
    assert lower == "exit";
    TrimSpaceOfTrimmed(lower);
    assert lower in Keywords && Keywords[lower] == Exit;
  }

  /** A line selects a command only if it is that command's keyword once
      trimmed and lower-cased. */
  lemma ParsedIsKeyword(line: string)
    requires ParseCommand(line) != Unrecognized
    ensures TrimSpace(ToLower(line)) == Keyword(ParseCommand(line))
  {
    var cmd := TrimSpace(ToLower(line));
    assert cmd in Keywords;
    KeywordNamesItsCommand(cmd);
  }

  lemma KeywordNamesItsCommand(k: string)
    requires k in Keywords
    ensures Keyword(Keywords[k]) == k
  {
  }

  /** White space around a command and the case of its letters do not
      matter. */
  lemma ParseCommandIgnoresPaddingAndCase(before: string, line: string, after: string)
    requires AllSpace(before) && AllSpace(after)
    ensures ParseCommand(before + line + after) == ParseCommand(line)
    ensures ParseCommand(ToLower(line)) == ParseCommand(line)
  {
    var t := before + line + after;
    assert TrimSpace(ToLower(t)) == TrimSpace(ToLower(line)) by {
      ToLowerConcat(before + line, after);
      ToLowerConcat(before, line);
      ToLowerKeepsSpace(before);
      ToLowerKeepsSpace(after);
      TrimSpacePadding(before, ToLower(line), after);
    }
    ToLowerIdempotent(line);
  }

  // -------------------------------------------------------------------- load

  datatype Document = Document(path: string, content: string)

  /** The text files found under the documents directory, in the order the
      program visits them, or a failure to walk the directory. */
  datatype Listing = ListingFailed | Listed(docs: seq<Document>)

  datatype LoadReport = ReadFailed | Indexed(total: nat)

  /** The fragments of one document. */
  function Fragments(content: string): seq<string> {
    Chunks(Fields(content), ChunkSize, Stride(ChunkSize, RawStep(ChunkSize, OverlapNum, OverlapDen)))
  }

  /** The store after adding the fragments of each document in turn, the add
      for the document at position d ending with outcome(d). */
  function LoadStore(store: Store, docs: seq<Document>, outcome: nat -> AddOutcome, frag: string -> seq<string>): Store
    decreases |docs|
  {
    if docs == [] then store
    else
      var d := |docs| - 1;
      var fs := frag(docs[d].content);
      ApplyAdd(LoadStore(store, docs[..d], outcome, frag), BatchIds(docs[d].path, |fs|), fs, outcome(d))
  }

  /** The fragment count the load command reports: fragments of the
      documents whose add succeeded. */
  function LoadTotal(docs: seq<Document>, outcome: nat -> AddOutcome, frag: string -> seq<string>): nat
    decreases |docs|
  {
    if docs == [] then 0
    else
      var d := |docs| - 1;
      LoadTotal(docs[..d], outcome, frag) + (if outcome(d).Stored? then |frag(docs[d].content)| else 0)
  }

  /** Loading one more document extends the load of the documents before
      it by that document's batch. */
  lemma LoadPrefixStep(store: Store, docs: seq<Document>, outcome: nat -> AddOutcome, frag: string -> seq<string>, d: nat)
    requires d < |docs|
    ensures var fs := frag(docs[d].content);
            LoadStore(store, docs[..d + 1], outcome, frag)
              == ApplyAdd(LoadStore(store, docs[..d], outcome, frag), BatchIds(docs[d].path, |fs|), fs, outcome(d))
    ensures LoadTotal(docs[..d + 1], outcome, frag)
              == LoadTotal(docs[..d], outcome, frag) + (if outcome(d).Stored? then |frag(docs[d].content)| else 0)
  {
    assert docs[..d + 1][..d] == docs[..d];
  }

  /** The ids and texts of one document's batch: fragment i is stored under
      path_i. */
  method FragmentBatch(path: string, chunks: seq<string>) returns (ids: seq<string>, texts: seq<string>)
    ensures |ids| == |texts| == |chunks| && Distinct(ids)
    ensures ids == BatchIds(path, |chunks|) && texts == chunks
  {
    var idSlots := new string[|chunks|];
    var textSlots := new string[|chunks|];
    for i := 0 to |chunks|
      invariant forall j :: 0 <= j < i ==> idSlots[j] == MakeId(path, j) && textSlots[j] == chunks[j]
    {
      idSlots[i] := MakeId(path, i);
      textSlots[i] := chunks[i];
    }
    ids := idSlots[..];
    texts := textSlots[..];
    assert ids == BatchIds(path, |chunks|);
  }

  predicate DistinctPaths(docs: seq<Document>) {
    forall i, j :: 0 <= i < j < |docs| ==> docs[i].path != docs[j].path
  }

  /** `k` is the id of some fragment of a listed document. */
  ghost predicate FromListing(k: string, docs: seq<Document>) {
    exists d, i: nat :: 0 <= d < |docs| && k == MakeId(docs[d].path, i)
  }

  /** An id that is not built from `path` is not in that path's batch. */
  lemma NotInBatch(k: string, path: string, count: nat)
    requires forall i: nat :: k != MakeId(path, i)
    ensures k !in BatchIds(path, count)
  {
  }

  /** The id of a fragment of one document is not in the batch of a document
      with another path. */
  lemma OtherPathNotInBatch(p: string, i: nat, path: string, count: nat)
    requires p != path
    ensures MakeId(p, i) !in BatchIds(path, count)
  {
    forall j: nat ensures MakeId(p, i) != MakeId(path, j) {
      if MakeId(p, i) == MakeId(path, j) {
        IdInjective(p, i, path, j);
      }
    }
    NotInBatch(MakeId(p, i), path, count);
  }

  /** Loading leaves alone every fragment that is not the fragment of a
      listed document. */
  lemma {:induction false} LoadKeepsOthers(store: Store, docs: seq<Document>, outcome: nat -> AddOutcome, frag: string -> seq<string>, k: string)
    requires k in store && !FromListing(k, docs)
    ensures k in LoadStore(store, docs, outcome, frag) && LoadStore(store, docs, outcome, frag)[k] == store[k]
    decreases |docs|
  {
    if docs != [] {
      var d := |docs| - 1;
      forall e, i: nat | 0 <= e < d ensures k != MakeId(docs[..d][e].path, i) {
        assert docs[..d][e] == docs[e];
      }
      LoadKeepsOthers(store, docs[..d], outcome, frag, k);
      assert forall i: nat :: k != MakeId(docs[d].path, i);
      NotInBatch(k, docs[d].path, |frag(docs[d].content)|);
    }
  }

  /** Every fragment a load adds belongs to a listed document. */
  lemma {:induction false} LoadAddsOnlyListed(store: Store, docs: seq<Document>, outcome: nat -> AddOutcome, frag: string -> seq<string>, k: string)
    requires k in LoadStore(store, docs, outcome, frag) && k !in store
    ensures FromListing(k, docs)
    decreases |docs|
  {
    var d := |docs| - 1;
    var fs := frag(docs[d].content);
    var ids := BatchIds(docs[d].path, |fs|);
    if k in LoadStore(store, docs[..d], outcome, frag) {
      LoadAddsOnlyListed(store, docs[..d], outcome, frag, k);
      var e, i: nat :| 0 <= e < d && k == MakeId(docs[..d][e].path, i);
      assert docs[..d][e] == docs[e];
    } else {
      var j :| 0 <= j < |ids| && ids[j] == k;
      assert k == MakeId(docs[d].path, j);
    }
  }

  /** After a load, fragment i of a document whose add succeeded is stored
      under path_i, provided no two listed documents share a path. */
  lemma {:induction false} LoadStoresFragments(store: Store, docs: seq<Document>, outcome: nat -> AddOutcome, frag: string -> seq<string>, d: nat, i: nat)
    requires DistinctPaths(docs) && d < |docs| && outcome(d).Stored?
    requires i < |frag(docs[d].content)|
    ensures var r := LoadStore(store, docs, outcome, frag);
            MakeId(docs[d].path, i) in r && r[MakeId(docs[d].path, i)] == frag(docs[d].content)[i]
    decreases |docs|
  {
    var last := |docs| - 1;
    var fs := frag(docs[last].content);
    var ids := BatchIds(docs[last].path, |fs|);
    var prev := LoadStore(store, docs[..last], outcome, frag);
    if d == last {
      AddStored(prev, ids, fs);
      assert ids[i] == MakeId(docs[d].path, i);
    } else {
      assert docs[..last][d] == docs[d];
      assert DistinctPaths(docs[..last]);
      assert docs[d].path != docs[last].path;
      LoadStoresFragments(store, docs[..last], outcome, frag, d, i);
      OtherPathNotInBatch(docs[d].path, i, docs[last].path, |fs|);
    }
  }

  /** When every add succeeds and the store holds no fragment of a listed
      document beforehand, the reported total is the number of fragments the
      load added to the store. */
  lemma {:induction false} LoadTotalCountsNewFragments(store: Store, docs: seq<Document>, outcome: nat -> AddOutcome, frag: string -> seq<string>)
    requires DistinctPaths(docs)
    requires forall d :: 0 <= d < |docs| ==> outcome(d).Stored?
    requires forall d, i: nat :: 0 <= d < |docs| ==> MakeId(docs[d].path, i) !in store
    ensures |LoadStore(store, docs, outcome, frag)| == |store| + LoadTotal(docs, outcome, frag)
    decreases |docs|
  {
    if docs != [] {
      var d := |docs| - 1;
      var fs := frag(docs[d].content);
      var ids := BatchIds(docs[d].path, |fs|);
      var prev := LoadStore(store, docs[..d], outcome, frag);
      forall e, i: nat | 0 <= e < d ensures MakeId(docs[..d][e].path, i) !in store {
        assert docs[..d][e] == docs[e];
      }
      LoadTotalCountsNewFragments(store, docs[..d], outcome, frag);
      forall j | 0 <= j < |ids|
        ensures j in AllIndices(|ids|) && ids[j] !in prev
      {
        FreshInPrefixLoad(store, docs, outcome, frag, j);
      }
      PutFreshSize(prev, ids, fs, AllIndices(|ids|));
    }
  }

  /** The ids of the last document are in neither the original store nor the
      store after the earlier documents. */
  lemma FreshInPrefixLoad(store: Store, docs: seq<Document>, outcome: nat -> AddOutcome, frag: string -> seq<string>, j: nat)
    requires docs != [] && DistinctPaths(docs)
    requires forall d, i: nat :: 0 <= d < |docs| ==> MakeId(docs[d].path, i) !in store
    ensures MakeId(docs[|docs| - 1].path, j) !in LoadStore(store, docs[..|docs| - 1], outcome, frag)
  {
    var d := |docs| - 1;
    var k := MakeId(docs[d].path, j);
    if k in LoadStore(store, docs[..d], outcome, frag) {
      LoadAddsOnlyListed(store, docs[..d], outcome, frag, k);
      var e, i: nat :| 0 <= e < d && k == MakeId(docs[..d][e].path, i);
      IdInjective(docs[d].path, j, docs[e].path, i);
    }
  }

  // ------------------------------------------------------------------- query

  /** What the collection returns for a question and a result count: the
      texts of the best-ranked fragments, best first, or an error. */
  datatype Retrieval = RetrievalError | Ranked(texts: seq<string>)

  /** What the generation service returns for a prompt. */
  datatype Generation = GenerationError | Generated(answer: string)

  datatype QueryReport =
    | NoQuestion
    | EmptyCollection
    | RetrievalFailed(n: nat)
    | GenerationFailed(n: nat, prompt: string)
    | Answered(n: nat, prompt: string, answer: string)
  {
    /** The collection was queried, for `n` fragments. */
    predicate Asked() {
      RetrievalFailed? || GenerationFailed? || Answered?
    }
  }

  /** What the query command promises about its report, for a collection
      holding `store`: a blank question is ignored, an empty collection is
      reported, otherwise the collection is asked for min(TopK, count)
      fragments; the prompt holds the longest prefix of the ranked texts that
      fits the budget, joined by newlines, and the answer is the one the
      generation service gives for that prompt. */
  predicate QueryMeets(store: Store, questionLine: string, retrieve: (string, nat) -> Retrieval,
                       generate: string -> Generation, report: QueryReport)
  {
    var q := TrimSpace(questionLine);
    && (report == NoQuestion <==> q == [])
    && (report == EmptyCollection <==> q != [] && |store| == 0)
    && (report.Asked() ==> 1 <= report.n <= |store| && report.n <= TopK && report.n == Min(TopK, |store|))
    && (report.RetrievalFailed? ==> retrieve(q, report.n).RetrievalError?)
    && (report.GenerationFailed? || report.Answered? ==>
          var res := retrieve(q, report.n);
          res.Ranked? && report.prompt == Prompt(Join(res.texts[..Fit(res.texts, MaxChars)], "\n"), q))
    && (report.GenerationFailed? ==> generate(report.prompt).GenerationError?)
    && (report.Answered? ==> generate(report.prompt) == Generated(report.answer))
  }

  datatype EditReport = DeleteFailed | AddFailed | Done

  // ----------------------------------------------------------- edit commands

  /** The store after deleting the fragment named on the id line, when the
      collection reports success. */
  function DeleteStore(store: Store, idLine: string, deleteOk: bool): Store {
    if deleteOk then store - {TrimSpace(idLine)} else store
  }

  /** The store after an update: the old fragment is deleted, then the new
      text is added under the same id; no add is made if the delete fails. */
  function UpdateStore(store: Store, idLine: string, textLine: string, deleteOk: bool, outcome: AddOutcome): Store {
    var id := TrimSpace(idLine);
    if deleteOk then ApplyAdd(store - {id}, [id], [TrimSpace(textLine)], outcome) else store
  }

  /** An update whose two steps succeed leaves exactly the new text under the
      id and changes nothing else. */
  lemma UpdateReplaces(store: Store, idLine: string, textLine: string)
    ensures UpdateStore(store, idLine, textLine, true, Stored) == store[TrimSpace(idLine) := TrimSpace(textLine)]
  {
    var id := TrimSpace(idLine);
    var r := UpdateStore(store, idLine, textLine, true, Stored);
    AddStored(store - {id}, [id], [TrimSpace(textLine)]);
    assert r.Keys == store[id := TrimSpace(textLine)].Keys;
  }

  /** An update is not atomic: when the delete succeeds and the add then
      fails without storing anything, the fragment is gone. */
  lemma UpdateNotAtomic(store: Store, idLine: string, textLine: string)
    ensures var id := TrimSpace(idLine);
            var r := UpdateStore(store, idLine, textLine, true, Failed({}));
            id !in r && r == store - {id}
  {
    var id := TrimSpace(idLine);
    var r := UpdateStore(store, idLine, textLine, true, Failed({}));
    assert 0 !in {};
    assert r.Keys == (store - {id}).Keys;
  }

  // ----------------------------------------------------------------- session

  /** Everything the program reads or is told during one turn: the command
      line and, for the command it selects, the listing, the add outcomes,
      the question, the services' answers, the id and text lines and the
      delete outcome. */
  datatype Turn = Turn(
    line: string,
    listing: Listing,
    outcomes: nat -> AddOutcome,
    questionLine: string,
    retrieve: (string, nat) -> Retrieval,
    generate: string -> Generation,
    idLine: string,
    textLine: string,
    deleteOk: bool,
    addOutcome: AddOutcome)

  datatype Reply =
    | Loaded(load: LoadReport)
    | Queried(query: QueryReport)
    | Edited(edit: EditReport)
    | Farewell
    | NotRecognized

  /** The store after one turn. */
  function StepStore(store: Store, t: Turn): Store {
    match ParseCommand(t.line)
    case Load => if t.listing.Listed? then LoadStore(store, t.listing.docs, t.outcomes, Fragments) else store
    case Update => UpdateStore(store, t.idLine, t.textLine, t.deleteOk, t.addOutcome)
    case Delete => DeleteStore(store, t.idLine, t.deleteOk)
    case _ => store
  }

  /** The turn is an `exit` command. */
  predicate Ends(t: Turn) {
    ParseCommand(t.line) == Exit
  }

  /** The command loop's effect on the store: the turns are applied with
      `step` up to the first one that `ends`, which ends the loop. */
  function RunUntil(store: Store, turns: seq<Turn>, step: (Store, Turn) -> Store, ends: Turn -> bool): Store
    decreases |turns|
  {
    if turns == [] || ends(turns[0]) then store
    else RunUntil(step(store, turns[0]), turns[1..], step, ends)
  }

  /** How many turns the command loop reads: all of them, or those up to
      the first one that `ends`. */
  function ReadUntil(turns: seq<Turn>, ends: Turn -> bool): (k: nat)
    ensures k <= |turns|
    decreases |turns|
  {
    if turns == [] then 0
    else if ends(turns[0]) then 1
    else 1 + ReadUntil(turns[1..], ends)
  }

  /** The store after the turns up to the first `exit`. */
  function RunStore(store: Store, turns: seq<Turn>): Store {
    RunUntil(store, turns, StepStore, Ends)
  }

  /** How many turns the session reads. */
  function TurnsRead(turns: seq<Turn>): nat {
    ReadUntil(turns, Ends)
  }

  /** Nothing after the turn that ends the loop is applied or read. */
  lemma {:induction false} StopsAtEnd(store: Store, turns: seq<Turn>, step: (Store, Turn) -> Store, ends: Turn -> bool, e: nat)
    requires e < |turns| && ends(turns[e])
    ensures RunUntil(store, turns, step, ends) == RunUntil(store, turns[..e], step, ends)
    ensures ReadUntil(turns, ends) <= e + 1
    decreases e
  {
    if e > 0 && !ends(turns[0]) {
      StopsAtEnd(step(store, turns[0]), turns[1..], step, ends, e - 1);
      assert turns[1..][..e - 1] == turns[..e][1..];
    }
  }

  /** `exit` ends the session: the turns after the first one change nothing
      and are not read. */
  lemma ExitIsTerminal(store: Store, turns: seq<Turn>, e: nat)
    requires e < |turns| && ParseCommand(turns[e].line) == Exit
    ensures RunStore(store, turns) == RunStore(store, turns[..e])
    ensures TurnsRead(turns) <= e + 1
  {
    StopsAtEnd(store, turns, StepStore, Ends, e);
  }

  class Session {
    /** The collection's fragments, by id. */
    var store: Store

    constructor (initial: Store)
      ensures store == initial
    {
      store := initial;
    }

    /** The load command. */
    method Load(listing: Listing, outcome: nat -> AddOutcome) returns (report: LoadReport)
      modifies this
      ensures listing.ListingFailed? ==> report == ReadFailed && store == old(store)
      ensures listing.Listed? ==>
                report == Indexed(LoadTotal(listing.docs, outcome, Fragments))
                && store == LoadStore(old(store), listing.docs, outcome, Fragments)
    {
      if listing.ListingFailed? {
        return ReadFailed;
      }
      var docs := listing.docs;
      var totalFragments := 0;
      var d := 0;
      while d < |docs|
        invariant d <= |docs|
        invariant totalFragments == LoadTotal(docs[..d], outcome, Fragments)
        invariant store == LoadStore(old(store), docs[..d], outcome, Fragments)
      {
        var added := AddDocument(docs[d], outcome(d));
        totalFragments := totalFragments + added;
        LoadPrefixStep(old(store), docs, outcome, Fragments, d);
        d := d + 1;
      }
      assert docs[..d] == docs;
      return Indexed(totalFragments);
    }

    /** One document of the load command: its fragments are added as one
        batch, and their number is what the batch adds to the reported
        total. */
    method AddDocument(doc: Document, outcome: AddOutcome) returns (added: nat)
      modifies this
      ensures var fs := Fragments(doc.content);
              store == ApplyAdd(old(store), BatchIds(doc.path, |fs|), fs, outcome)
      ensures added == if outcome.Stored? then |Fragments(doc.content)| else 0
    {
      var chunks := ChunkText(doc.content, ChunkSize, RawStep(ChunkSize, OverlapNum, OverlapDen));
      var ids, texts := FragmentBatch(doc.path, chunks);
      store := ApplyAdd(store, ids, texts, outcome);
      added := 0;
      if outcome.Stored? {
        added := |texts|;
      }
    }

    /** The query command. The collection is asked for min(TopK, count)
        fragments, where count is the number of stored fragments. */
    method Query(questionLine: string, retrieve: (string, nat) -> Retrieval, generate: string -> Generation)
      returns (report: QueryReport)
      ensures QueryMeets(store, questionLine, retrieve, generate, report)
    {
      var q := TrimSpace(questionLine);
      if q == [] {
        return NoQuestion;
      }
      var cnt := |store|;
      if cnt == 0 {
        return EmptyCollection;
      }
      var n := TopK;
      if cnt < n {
        n := cnt;
      }
      var res := retrieve(q, n);
      if res.RetrievalError? {
        return RetrievalFailed(n);
      }
      var context := AssembleContext(res.texts, MaxChars);
      var prompt := Prompt(context, q);
      var ans := generate(prompt);
      if ans.GenerationError? {
        return GenerationFailed(n, prompt);
      }
      return Answered(n, prompt, ans.answer);
    }

    /** The update command. */
    method Update(idLine: string, textLine: string, deleteOk: bool, outcome: AddOutcome) returns (report: EditReport)
      modifies this
      ensures store == UpdateStore(old(store), idLine, textLine, deleteOk, outcome)
      ensures report == (if !deleteOk then DeleteFailed else if outcome.Stored? then Done else AddFailed)
    {
      var id := TrimSpace(idLine);
      var txt := TrimSpace(textLine);
      if !deleteOk {
        return DeleteFailed;
      }
      store := store - {id};
      store := ApplyAdd(store, [id], [txt], outcome);
      if !outcome.Stored? {
        return AddFailed;
      }
      return Done;
    }

    /** The delete command. */
    method Delete(idLine: string, deleteOk: bool) returns (report: EditReport)
      modifies this
      ensures store == DeleteStore(old(store), idLine, deleteOk)
      ensures report == (if deleteOk then Done else DeleteFailed)
    {
      var id := TrimSpace(idLine);
      if !deleteOk {
        return DeleteFailed;
      }
      store := store - {id};
      return Done;
    }

    /** One turn of the command loop. */
    method Step(t: Turn) returns (reply: Reply, exit: bool)
      modifies this
      ensures store == StepStore(old(store), t)
      ensures exit <==> ParseCommand(t.line) == Exit
      ensures reply == NotRecognized <==> ParseCommand(t.line) == Unrecognized
      ensures ParseCommand(t.line) !in {Command.Load, Command.Update, Command.Delete} ==> store == old(store)
      ensures ParseCommand(t.line) == Command.Load ==>
                reply == Loaded(if t.listing.ListingFailed? then ReadFailed
                                else Indexed(LoadTotal(t.listing.docs, t.outcomes, Fragments)))
      ensures ParseCommand(t.line) == Command.Query ==>
                reply.Queried? && QueryMeets(old(store), t.questionLine, t.retrieve, t.generate, reply.query)
      ensures ParseCommand(t.line) == Command.Update ==>
                reply == Edited(if !t.deleteOk then DeleteFailed else if t.addOutcome.Stored? then Done else AddFailed)
      ensures ParseCommand(t.line) == Command.Delete ==> reply == Edited(if t.deleteOk then Done else DeleteFailed)
      ensures ParseCommand(t.line) == Exit ==> reply == Farewell
    {
      exit := false;
      match ParseCommand(t.line)
      case Load =>
        var r := Load(t.listing, t.outcomes);
        reply := Loaded(r);
      case Query =>
        var r := Query(t.questionLine, t.retrieve, t.generate);
        reply := Queried(r);
      case Update =>
        var r := Update(t.idLine, t.textLine, t.deleteOk, t.addOutcome);
        reply := Edited(r);
      case Delete =>
        var r := Delete(t.idLine, t.deleteOk);
        reply := Edited(r);
      case Exit =>
        reply := Farewell;
        exit := true;
      case Unrecognized =>
        reply := NotRecognized;
    }

    /** The command loop over the given turns, up to and including the first
        `exit`. */
    method Run(turns: seq<Turn>) returns (read: nat)
      modifies this
      ensures read == TurnsRead(turns)
      ensures store == RunStore(old(store), turns)
    {
      read := 0;
      while read < |turns|
        invariant read <= |turns|
        invariant RunStore(old(store), turns) == RunStore(store, turns[read..])
        invariant TurnsRead(turns) == read + TurnsRead(turns[read..])
      {
        var reply, exit := Step(turns[read]);
        assert turns[read..][1..] == turns[read + 1..];
        read := read + 1;
        if exit {
          break;
        }
      }
    }
  }
}
