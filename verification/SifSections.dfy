/** The SIF v2 frame: sections are shrunk one item at a time, in a fixed order, until the encoding fits. */
module SifSections {
  import opened Sif

  /** The lists that may be shrunk, first to go first: assertions, entities, hints, subgraphs, evidence, current facts
      and decisions. */
  type Lists<T> = seq<seq<T>>

  function Total<T>(lists: Lists<T>): nat {
    if lists == [] then 0 else |lists[0]| + Total(lists[1..])
  }

  /** Takes `k` items in all: from the end of the first list, and from the next one once that is empty. */
  function Cut<T>(lists: Lists<T>, k: nat): Lists<T> {
    if lists == [] then []
    else if k >= |lists[0]| then [[]] + Cut(lists[1..], k - |lists[0]|)
    else [lists[0][..|lists[0]| - k]] + lists[1..]
  }

  lemma {:induction false} CutLength<T>(lists: Lists<T>, k: nat)
    ensures |Cut(lists, k)| == |lists|
  {
    if lists != [] && k >= |lists[0]| {
      CutLength(lists[1..], k - |lists[0]|);
    }
  }

  lemma {:induction false} CutNothing<T>(lists: Lists<T>)
    ensures Cut(lists, 0) == lists
  {
    if lists != [] {
      CutNothing(lists[1..]);
      assert lists[0][..|lists[0]|] == lists[0];
      assert lists == [lists[0]] + lists[1..];
    }
  }

  /** One item off the end of the first list that has any. */
  function Popped<T>(lists: Lists<T>): Lists<T> {
    if lists == [] then []
    else if lists[0] == [] then [[]] + Popped(lists[1..])
    else [lists[0][..|lists[0]| - 1]] + lists[1..]
  }

  lemma {:induction false} PoppedAt<T>(lists: Lists<T>, i: nat)
    requires i < |lists| && lists[i] != [] && forall j :: 0 <= j < i ==> lists[j] == []
    ensures Popped(lists) == lists[i := lists[i][..|lists[i]| - 1]]
  {
    if i > 0 {
      PoppedAt(lists[1..], i - 1);
    }
  }

  lemma {:induction false} CutNext<T>(lists: Lists<T>, k: nat)
    requires exists i :: 0 <= i < |Cut(lists, k)| && Cut(lists, k)[i] != []
    ensures Cut(lists, k + 1) == Popped(Cut(lists, k)) && k < Total(lists)
  {
    var cut := Cut(lists, k);
    var i :| 0 <= i < |cut| && cut[i] != [];
    if k >= |lists[0]| {
      assert cut[1..] == Cut(lists[1..], k - |lists[0]|);
      assert cut[1..][i - 1] != [];
      CutNext(lists[1..], k - |lists[0]|);
    } else {
      CutNothing(lists[1..]);
      assert cut[0][..|cut[0]| - 1] == lists[0][..|cut[0]| - 1];
    }
  }

  lemma {:induction false} CutEmpty<T>(lists: Lists<T>, k: nat)
    requires forall j :: 0 <= j < |Cut(lists, k)| ==> Cut(lists, k)[j] == []
    ensures k >= Total(lists)
  {
    if lists != [] {
      var cut := Cut(lists, k);
      assert k >= |lists[0]| by {
        assert cut[0] == [];
      }
      var rest, left := lists[1..], k - |lists[0]|;
      assert cut[1..] == Cut(rest, left);
      forall j | 0 <= j < |Cut(rest, left)| ensures Cut(rest, left)[j] == [] {
        assert cut[1..][j] == cut[j + 1];
      }
      CutEmpty(rest, left);
    }
  }

  /** One pass over the shrink order. */
  method PopOne<T>(lists: Lists<T>) returns (shorter: Lists<T>, changed: bool)
    ensures changed <==> exists i :: 0 <= i < |lists| && lists[i] != []
    ensures shorter == if changed then Popped(lists) else lists
  {
    for i := 0 to |lists|
      invariant forall j :: 0 <= j < i ==> lists[j] == []
    {
      if lists[i] != [] {
        PoppedAt(lists, i);
        return lists[i := lists[i][..|lists[i]| - 1]], true;
      }
    }
    return lists, false;
  }

  predicate TooBig(a: Assembler, text: string)
    requires a.Valid()
  {
    a.Estimate(text) > a.maxTokens
  }

  /** `fitted` is what `dropped` pops leave of `start`, and fewer pops were not enough. */
  ghost predicate Reached<T>(a: Assembler, start: Lists<T>, encode: Lists<T> -> string,
                             fitted: Lists<T>, dropped: nat)
    requires a.Valid()
  {
    && dropped <= Total(start) && fitted == Cut(start, dropped)
    && (forall j :: 0 <= j < dropped ==> TooBig(a, encode(Cut(start, j))))
  }

  lemma ReachedNext<T>(a: Assembler, start: Lists<T>, encode: Lists<T> -> string, fitted: Lists<T>, dropped: nat)
    requires a.Valid() && Reached(a, start, encode, fitted, dropped) && TooBig(a, encode(fitted))
    requires exists i :: 0 <= i < |fitted| && fitted[i] != []
    ensures Reached(a, start, encode, Popped(fitted), dropped + 1)
  {
    CutNext(start, dropped);
  }

  /** Shrinks `start` under the encoding of the whole frame around it. */
  method FitSections<T>(a: Assembler, start: Lists<T>, encode: Lists<T> -> string)
    returns (fitted: Lists<T>, dropped: nat)
    requires a.Valid()
    ensures Reached(a, start, encode, fitted, dropped)
    ensures !TooBig(a, encode(fitted)) || dropped == Total(start)
  {
    fitted, dropped := start, 0;
    CutNothing(start);
    while TooBig(a, encode(fitted))
      invariant Reached(a, start, encode, fitted, dropped)
      decreases Total(start) - dropped
    {
      var shorter, changed := PopOne(fitted);
      if !changed {
        CutEmpty(start, dropped);
        break;
      }
      ReachedNext(a, start, encode, fitted, dropped);
      fitted, dropped := shorter, dropped + 1;
    }
  }

  /** Each list is a beginning of its original, and a list is touched only when all the earlier ones are empty. */
  ghost predicate FrontFirst<T>(lists: Lists<T>, cut: Lists<T>) {
    && |cut| == |lists|
    && (forall i :: 0 <= i < |lists| ==> cut[i] <= lists[i])
    && (forall i, j :: 0 <= j < i < |lists| && cut[i] != lists[i] ==> cut[j] == [])
  }

  /** Any number of pops works from the front, and the items that are gone are the ones counted. */
  lemma {:induction false} CutIsFrontFirst<T>(lists: Lists<T>, k: nat)
    requires k <= Total(lists)
    ensures FrontFirst(lists, Cut(lists, k)) && Total(Cut(lists, k)) == Total(lists) - k
  {
    if lists != [] {
      var cut, rest := Cut(lists, k), lists[1..];
      if k >= |lists[0]| {
        CutIsFrontFirst(rest, k - |lists[0]|);
        FrontFirstMore(lists, [], Cut(rest, k - |lists[0]|));
        assert cut[1..] == Cut(rest, k - |lists[0]|);
      } else {
        FrontFirstMore(lists, cut[0], rest);
        assert cut[1..] == rest;
      }
    }
  }

  lemma FrontFirstMore<T>(lists: Lists<T>, first: seq<T>, cut: Lists<T>)
    requires lists != [] && first <= lists[0] && FrontFirst(lists[1..], cut)
    requires first == [] || cut == lists[1..]
    ensures FrontFirst(lists, [first] + cut)
  {
    var all := [first] + cut;
    forall i | 0 < i < |lists| ensures all[i] == cut[i - 1] && lists[i] == lists[1..][i - 1] {
    }
  }

  /** Working from the front leaves no choice: the lists after `k` pops are the only ones with `k` items fewer. */
  lemma {:induction false} FrontFirstIsCut<T>(lists: Lists<T>, k: nat, cut: Lists<T>)
    requires FrontFirst(lists, cut) && k <= Total(lists) && Total(cut) == Total(lists) - k
    ensures cut == Cut(lists, k)
  {
    if lists != [] {
      var rest := lists[1..];
      assert cut == [cut[0]] + cut[1..];
      if cut[0] == [] {
        FrontFirstTail(lists, cut);
        FrontFirstIsCut(rest, k - |lists[0]|, cut[1..]);
      } else {
        FirstListLeft(lists, cut);
      }
    }
  }

  lemma {:induction false} FrontFirstTail<T>(lists: Lists<T>, cut: Lists<T>)
    requires FrontFirst(lists, cut) && lists != []
    ensures FrontFirst(lists[1..], cut[1..]) && Total(cut[1..]) <= Total(lists[1..])
  {
    if |lists| > 1 {
      FrontFirstTail(lists[1..], cut[1..]);
    }
  }

  lemma FirstListLeft<T>(lists: Lists<T>, cut: Lists<T>)
    requires FrontFirst(lists, cut) && lists != [] && cut[0] != []
    ensures cut[1..] == lists[1..] && |cut[0]| <= |lists[0]| && cut[0] == lists[0][..|cut[0]|]
  {
    forall i | 0 < i < |lists| ensures cut[i] == lists[i] {
      assert cut[0] != [];
    }
  }

  // ---- the estimate that is written in afterwards ----

  const ESTIMATE_KEY := "\"estimated_tokens\":"

  /** The fitted frame once its own estimate has been added to one of its objects, at the place `at` that the sorted
      keys give it; a comma separates it from the key that follows. */
  function WithEstimate(text: string, at: nat, n: nat): string
    requires at <= |text|
  {
    text[..at] + ESTIMATE_KEY + Decimal(n) + "," + text[at..]
  }

  /** The frame the caller receives fits the budget exactly when there was room for the written estimate too, and it
      exceeds the tested frame by no more than the tokens of that text. */
  lemma WrittenEstimateIff(a: Assembler, text: string, at: nat)
    requires a.Valid() && at <= |text|
    ensures var n := a.Estimate(text); var extra := |ESTIMATE_KEY| + |Decimal(n)| + 1;
            var received := WithEstimate(text, at, n);
            && (!TooBig(a, received) <==> |text| + extra <= a.Chars())
            && n <= a.Estimate(received) <= n + (extra + a.charsPerToken - 1) / a.charsPerToken
  {
    var n := a.Estimate(text);
    var extra := |ESTIMATE_KEY| + |Decimal(n)| + 1;
    var received := WithEstimate(text, at, n);
    assert |received| == |text| + extra;
    var c, m := a.charsPerToken, a.Estimate(received);
    var more := (extra + c - 1) / c;
    EstimateIff(a, received, a.maxTokens);
    EstimateIff(a, received, m);
    EstimateIff(a, text, m);
    EstimateIff(a, text, n);
    CeilIff(extra, c, more);
    Distribute(n, more, c);
    EstimateIff(a, received, n + more);
  }

  /** A frame that just fits when it is tested is always too big when the caller receives it. */
  lemma FullFrameOverflows(a: Assembler, text: string, at: nat)
    requires a.Valid() && at <= |text| == a.Chars()
    ensures !TooBig(a, text) && TooBig(a, WithEstimate(text, at, a.Estimate(text)))
  {
    EstimateIff(a, text, a.maxTokens);
    WrittenEstimateIff(a, text, at);
  }
}
