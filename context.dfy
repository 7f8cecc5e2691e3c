/** Building the context of a generation prompt: the ranked fragments are
    taken in order while their total byte length stays within the budget,
    stopping at the first one that would overflow it, and the kept fragments
    are joined with newlines. Only the fragments' lengths are counted against
    the budget, not the newlines between them. */
module ContextAssembly {
  import opened Text

  /** maxChars. */
  const MaxChars: nat := 4000

  /** How many leading fragments the greedy loop keeps under `budget`. */
  function Fit(results: seq<string>, budget: int): (k: nat)
    ensures k <= |results|
  {
    if results == [] || Utf8Len(results[0]) > budget then 0
    else 1 + Fit(results[1..], budget - Utf8Len(results[0]))
  }

  /** The context assembly loop of the query command and the join after it. */
  method AssembleContext(results: seq<string>, maxChars: nat) returns (context: string)
    ensures context == Join(results[..Fit(results, maxChars)], "\n")
    ensures results != [] && Utf8Len(results[0]) > maxChars ==> context == ""
  {
    var parts: seq<string> := [];
    var totalChars := 0;
    var i := 0;
    while i < |results|
      invariant i <= |results|
      invariant parts == results[..i]
      invariant totalChars == SumLen(results[..i]) <= maxChars
      invariant Fit(results, maxChars) == i + Fit(results[i..], maxChars - totalChars)
    {
      var doc := results[i];
      if totalChars + Utf8Len(doc) > maxChars {
        break;
      }
      assert results[i..][1..] == results[i + 1..];
      assert results[..i + 1] == results[..i] + [doc];
      SumLenConcat(results[..i], [doc]);
      parts := parts + [doc];
      totalChars := totalChars + Utf8Len(doc);
      i := i + 1;
    }
    context := Join(parts, "\n");
  }

  /** The kept fragments are a prefix of the results whose lengths add up to
      at most the budget, and the next fragment, if any, would overflow it. */
  lemma {:induction false} FitIsGreedyPrefix(results: seq<string>, budget: nat)
    ensures SumLen(results[..Fit(results, budget)]) <= budget
    ensures Fit(results, budget) < |results| ==>
              SumLen(results[..Fit(results, budget) + 1]) > budget
  {
    if results != [] && Utf8Len(results[0]) <= budget {
      var rest := results[1..];
      var b := budget - Utf8Len(results[0]);
      FitIsGreedyPrefix(rest, b);
      var k := Fit(rest, b);
      assert results[..k + 1] == [results[0]] + rest[..k];
      if k < |rest| {
        assert results[..k + 2] == [results[0]] + rest[..k + 1];
      }
    } else if results != [] {
      assert results[..1] == [results[0]];
    }
  }

  lemma {:induction false} SumLenPrefixMonotone(results: seq<string>, j: nat, k: nat)
    requires j <= k <= |results|
    ensures SumLen(results[..j]) <= SumLen(results[..k])
  {
    assert results[..k] == results[..j] + results[j..k];
    SumLenConcat(results[..j], results[j..k]);
  }

  /** No longer prefix fits: the greedy loop keeps the longest prefix within
      the budget, so a fragment is never skipped while a later one is kept. */
  lemma FitIsLongest(results: seq<string>, budget: nat, j: nat)
    requires j <= |results| && SumLen(results[..j]) <= budget
    ensures j <= Fit(results, budget)
  {
    var k := Fit(results, budget);
    FitIsGreedyPrefix(results, budget);
    if j > k {
      SumLenPrefixMonotone(results, k + 1, j);
    }
  }

  /** The context is as long as the kept fragments plus one newline between
      each two of them: it can exceed the budget by the number of kept
      fragments minus one. */
  lemma ContextLength(results: seq<string>, budget: nat)
    ensures var kept := results[..Fit(results, budget)];
            Utf8Len(Join(kept, "\n")) ==
              if kept == [] then 0 else SumLen(kept) + |kept| - 1
    ensures var kept := results[..Fit(results, budget)];
            Utf8Len(Join(kept, "\n")) <= budget + |kept| - 1 || kept == []
  {
    var kept := results[..Fit(results, budget)];
    FitIsGreedyPrefix(results, budget);
    if kept != [] {
      JoinedByNewlines(kept);
    }
  }

  lemma JoinedByNewlines(parts: seq<string>)
    requires parts != []
    ensures Utf8Len(Join(parts, "\n")) == SumLen(parts) + |parts| - 1
  {
    NewlineLength();
    JoinLengthUnitSeparator(parts, "\n");
  }

  lemma NewlineLength()
    ensures Utf8Len("\n") == 1
  {
    var sep := "\n";
    assert sep[1..] == [];
    assert Utf8Len(sep) == RuneLen(sep[0]) + Utf8Len(sep[1..]);
  }

  lemma JoinLengthUnitSeparator(parts: seq<string>, sep: string)
    requires parts != [] && Utf8Len(sep) == 1
    ensures Utf8Len(Join(parts, sep)) == SumLen(parts) + |parts| - 1
  {
    JoinLength(parts, sep);
    MulOne(|parts| - 1, Utf8Len(sep));
  }

  lemma MulOne(m: int, x: int)
    requires x == 1
    ensures m * x == m
  {
  }

  /** Two two-byte fragments under a budget of 4 are both kept, and their
      context is 5 bytes long. */
  lemma ContextCanExceedBudget()
    ensures Fit(["ab", "cd"], 4) == 2
    ensures Utf8Len(Join(["ab", "cd"], "\n")) == 5
  {
    assert Utf8Len("ab") == 2;
    assert Utf8Len("cd") == 2;
    assert ["ab", "cd"][1..] == ["cd"];
    JoinedByNewlines(["ab", "cd"]);
  }

  /** With a budget of 10, "hello" is kept and "worldwide" is the first
      fragment to overflow it, so the context is "hello" alone. */
  lemma OverflowStopsAssembly()
    ensures Fit(["hello", "worldwide"], 10) == 1
    ensures Join(["hello", "worldwide"][..1], "\n") == "hello"
  {
    AsciiLen("hello");
    AsciiLen("worldwide");
    KeepsFirstOfTwo("hello", "worldwide", 10);
  }

  lemma KeepsFirstOfTwo(a: string, b: string, budget: int)
    requires Utf8Len(a) <= budget < Utf8Len(a) + Utf8Len(b)
    ensures Fit([a, b], budget) == 1
    ensures Join([a, b][..1], "\n") == a
  {
    assert [a, b][1..] == [b];
    assert [a, b][..1] == [a];
  }

  /** The generation prompt: an instruction to use the context when it is
      enough and to answer from general knowledge otherwise, the context, the
      question, and an answer cue. */
  const PromptHead := "Usa el siguiente contexto para responder la pregunta.\nSi el contexto no basta, responde con lo que sepas.\n\nContexto:\n"
  const PromptMiddle := "\n\nPregunta: "
  const PromptTail := "\nRespuesta:"

  function Prompt(context: string, question: string): (p: string)
    ensures |p| == |PromptHead| + |context| + |PromptMiddle| + |question| + |PromptTail|
    ensures p[|PromptHead|..|PromptHead| + |context|] == context
    ensures p[|p| - |PromptTail| - |question|..|p| - |PromptTail|] == question
  {
    PromptHead + context + PromptMiddle + question + PromptTail
  }
}
