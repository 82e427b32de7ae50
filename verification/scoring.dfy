/**
 * Claim normalisation (`slice`) and the word-count dissimilarity (`compare_strings`)
 * that reorder_docs.py and reorder_table.py each carry an identical copy of.
 */
module Scoring {
  import opened Outcomes
  import opened Text

  /**
   * `slice(claim, prefix)` of reorder_docs.py, i.e. `claim.split(prefix, 1)[1]`:
   * the text after the first occurrence of `prefix`. Python raises ValueError for an
   * empty separator and IndexError when `prefix` does not occur.
   */
  function Slice(claim: string, prefix: string): (r: Result<string>)
    ensures r.Ok? <==> prefix != [] && Contains(claim, prefix)
    ensures prefix == [] ==> r == Err(EmptySeparator)
    ensures prefix != [] && r.Err? ==> r.error == SeparatorNotFound
    ensures r.Ok? ==> |r.value| + |prefix| <= |claim|
    ensures r.Ok? ==> var k := |claim| - |r.value| - |prefix|;
      FirstAt(claim, prefix, k) && claim == claim[..k] + prefix + r.value
  {
    if prefix == [] then Err(EmptySeparator)
    else match Find(claim, prefix)
      case None => Err(SeparatorNotFound)
      case Some(k) =>
        assert claim == claim[..k] + prefix + claim[k + |prefix|..];
        Ok(claim[k + |prefix|..])
  }

  /**
   * `slice(claim)` of reorder_table.py, `claim.split(".", 1)[1]`, which is also what
   * compute_diffs of reorder_docs.py applies (`slice(item, ".")`): the text after the
   * first "." of a claim, so that "3. A widget" becomes " A widget".
   */
  function SliceClaim(claim: string): (r: Result<string>)
    ensures r.Ok? <==> '.' in claim
    ensures r.Err? ==> r.error == SeparatorNotFound
  {
    match AfterFirst(claim, '.')
    case None => Err(SeparatorNotFound)
    case Some(rest) => Ok(rest)
  }

  /**
   * `slice(claim)` is `slice(claim, ".")`, and cuts at the first ".": the claim is
   * the text before it (which holds no "."), the ".", then the result.
   */
  lemma SliceClaimFirstDot(claim: string)
    requires '.' in claim
    ensures SliceClaim(claim) == Slice(claim, ".")
    ensures var rest := SliceClaim(claim).value; var k := |claim| - |rest| - 1;
      0 <= k && claim[k] == '.' && '.' !in claim[..k] && claim == claim[..k] + "." + rest
  {
    AfterFirstCuts(claim, '.');
    ContainsChar(claim, '.');
    var rest := SliceClaim(claim).value;
    var k := |claim| - |rest| - 1;
    assert claim[k..k + 1] == ".";
    forall j | 0 <= j < k
      ensures !OccursAt(claim, ".", j)
    {
      assert claim[..k][j] == claim[j];
      assert claim[j..j + 1][0] == claim[j];
    }
    var r := Slice(claim, ".");
    FirstAtUnique(claim, ".", k, |claim| - |r.value| - 1);
  }

  /** The distinct words of a word list: the keys of compare_strings' `counts1`. */
  ghost function Vocabulary(words: seq<string>): set<string> {
    set w | w in words
  }

  /** `abs(counts1[w] - counts2[w])`, with a missing key counting 0 as in a `defaultdict(int)`. */
  function Gap(m1: multiset<string>, m2: multiset<string>, w: string): nat {
    if m1[w] >= m2[w] then m1[w] - m2[w] else m2[w] - m1[w]
  }

  /** The sum of `Gap` over a finite set of words, in no particular order. */
  ghost function GapSum(ws: set<string>, m1: multiset<string>, m2: multiset<string>): nat
    decreases ws
  {
    if ws == {} then 0
    else var w :| w in ws; Gap(m1, m2, w) + GapSum(ws - {w}, m1, m2)
  }

  /**
   * What compare_strings(str1, str2) computes: over every distinct word of `str1`
   * (words are the pieces of `split(" ")`), the difference between how often it
   * occurs in `str1` and in `str2`. Words that occur only in `str2` add nothing.
   */
  ghost function Discrepancy(str1: string, str2: string): nat {
    var words1 := Split(str1, ' ');
    GapSum(Vocabulary(words1), multiset(words1), multiset(Split(str2, ' ')))
  }

  /** A sum over a set can be taken apart at any of its elements. */
  lemma {:induction false} GapSumPick(ws: set<string>, m1: multiset<string>, m2: multiset<string>, w: string)
    requires w in ws
    ensures GapSum(ws, m1, m2) == Gap(m1, m2, w) + GapSum(ws - {w}, m1, m2)
    decreases ws
  {
    var v :| v in ws && GapSum(ws, m1, m2) == Gap(m1, m2, v) + GapSum(ws - {v}, m1, m2);
    if v != w {
      GapSumPick(ws - {v}, m1, m2, w);
      GapSumPick(ws - {w}, m1, m2, v);
      assert ws - {v} - {w} == ws - {w} - {v};
    }
  }

  /** A sum of gaps is zero exactly when every word of the set has equal counts. */
  lemma {:induction false} GapSumZero(ws: set<string>, m1: multiset<string>, m2: multiset<string>)
    ensures GapSum(ws, m1, m2) == 0 <==> forall w :: w in ws ==> m1[w] == m2[w]
    decreases ws
  {
    if ws != {} {
      var v :| v in ws;
      GapSumPick(ws, m1, m2, v);
      GapSumZero(ws - {v}, m1, m2);
    }
  }

  /**
   * compare_strings(str1, str2) is 0 exactly when every word of `str1` occurs in
   * `str2` equally often; extra words of `str2` are not seen.
   */
  lemma DiscrepancyZero(str1: string, str2: string)
    ensures Discrepancy(str1, str2) == 0 <==>
      forall w :: w in Split(str1, ' ') ==> multiset(Split(str1, ' '))[w] == multiset(Split(str2, ' '))[w]
  {
    var words1 := Split(str1, ' ');
    assert forall w :: w in Vocabulary(words1) <==> w in words1;
    assert Discrepancy(str1, str2) == GapSum(Vocabulary(words1), multiset(words1), multiset(Split(str2, ' ')));
    GapSumZero(Vocabulary(words1), multiset(words1), multiset(Split(str2, ' ')));
  }

  /** Two strings made of the same words, counted with multiplicity, score 0; in particular `compare_strings(s, s) == 0`. */
  lemma DiscrepancySameWords(str1: string, str2: string)
    requires multiset(Split(str1, ' ')) == multiset(Split(str2, ' '))
    ensures Discrepancy(str1, str2) == 0
    ensures Discrepancy(str1, str1) == 0
  {
    DiscrepancyZero(str1, str2);
    DiscrepancyZero(str1, str1);
  }

  /** The words of "a" and of "a b". */
  lemma SplitSamples()
    ensures Split("a", ' ') == ["a"]
    ensures Split("a b", ' ') == ["a", "b"]
  {
    SplitWithoutSeparator("a", ' ');
    SplitWithoutSeparator("b", ' ');
    SplitAtFirst("a", "b", ' ');
    assert "a" + [' '] + "b" == "a b";
  }

  /** The score is not symmetric: it only looks at the words of its first argument. */
  lemma DiscrepancyAsymmetric()
    ensures Discrepancy("a", "a b") == 0
    ensures Discrepancy("a b", "a") == 1
  {
    SplitSamples();
    DiscrepancyZero("a", "a b");
    var m1, m2 := multiset(["a", "b"]), multiset(["a"]);
    assert "a" != "b" by { assert "a"[0] != "b"[0]; }
    assert m1["a"] == 1 && m1["b"] == 1 && m2["a"] == 1 && m2["b"] == 0;
    assert Vocabulary(["a", "b"]) == {"a", "b"};
    GapSumPick({"a", "b"}, m1, m2, "b");
    assert {"a", "b"} - {"b"} == {"a"};
    GapSumPick({"a"}, m1, m2, "a");
    assert {"a"} - {"a"} == {};
  }

  /** A claim made of one character, ".", then `rest` slices to `rest`. */
  lemma SliceAfterNumber(claim: string, rest: string)
    requires |claim| >= 2 && claim[0] != '.' && claim[1] == '.' && claim[2..] == rest
    ensures SliceClaim(claim) == Ok(rest)
  {
    AfterFirstAt(claim[..1], '.', rest);
    assert claim == claim[..1] + ['.'] + rest;
  }

  /** " A widget." is its words joined with spaces. */
  lemma WidgetWordsJoined(words: seq<string>)
    requires words == ["", "A", "widget."]
    ensures Join(words, ' ') == " A widget."
  {
    assert Join(words[1..], ' ') == "A widget.";
  }

  /** The words of " A widget.". */
  lemma WidgetWords(s: string)
    requires s == " A widget."
    ensures Split(s, ' ') == ["", "A", "widget."]
  {
    var words := ["", "A", "widget."];
    WidgetWordsJoined(words);
    SplitJoin(words, ' ');
  }

  /** " A gadget device." is its words joined with spaces. */
  lemma GadgetDeviceWordsJoined(words: seq<string>)
    requires words == ["", "A", "gadget", "device."]
    ensures Join(words, ' ') == " A gadget device."
  {
    assert Join(words[2..], ' ') == "gadget device.";
    assert Join(words[1..], ' ') == "A gadget device.";
  }

  /** The words of " A gadget device.". */
  lemma GadgetDeviceWords(s: string)
    requires s == " A gadget device."
    ensures Split(s, ' ') == ["", "A", "gadget", "device."]
  {
    var words := ["", "A", "gadget", "device."];
    GadgetDeviceWordsJoined(words);
    SplitJoin(words, ' ');
  }

  /** " A small widget." is its words joined with spaces. */
  lemma SmallWidgetWordsJoined(words: seq<string>)
    requires words == ["", "A", "small", "widget."]
    ensures Join(words, ' ') == " A small widget."
  {
    assert Join(words[2..], ' ') == "small widget.";
    assert Join(words[1..], ' ') == "A small widget.";
  }

  /** The words of " A small widget.". */
  lemma SmallWidgetWords(s: string)
    requires s == " A small widget."
    ensures Split(s, ' ') == ["", "A", "small", "widget."]
  {
    var words := ["", "A", "small", "widget."];
    SmallWidgetWordsJoined(words);
    SplitJoin(words, ' ');
  }

  /** " A small widget." holds the words of " A widget." once each, and "small" besides. */
  lemma WidgetInSmallWidget(a: string, b: string)
    requires a == " A widget." && b == " A small widget."
    ensures Discrepancy(a, b) == 0
  {
    WidgetWords(a);
    SmallWidgetWords(b);
    SmallWidgetCounts(Split(a, ' '), Split(b, ' '));
    DiscrepancyZero(a, b);
  }

  /** Each word of the first list occurs as often in the second, which only adds "small". */
  lemma SmallWidgetCounts(wa: seq<string>, wb: seq<string>)
    requires wa == ["", "A", "widget."] && wb == ["", "A", "small", "widget."]
    ensures forall w :: w in wa ==> multiset(wa)[w] == multiset(wb)[w]
  {
    assert wb == wa[..2] + ["small"] + wa[2..];
    assert wa == wa[..2] + wa[2..];
    assert multiset(wb) == multiset(wa) + multiset{"small"};
    assert "small" !in wa;
  }

  /** " A gadget device." lacks the word "widget." of " A widget.". */
  lemma WidgetNotInGadgetDevice(a: string, c: string)
    requires a == " A widget." && c == " A gadget device."
    ensures Discrepancy(a, c) > 0
  {
    WidgetWords(a);
    GadgetDeviceWords(c);
    var wa, wc := Split(a, ' '), Split(c, ' ');
    assert "widget."[0] != "device."[0];
    assert wa[2] == "widget." && "widget." !in wc;
    assert multiset(wc)["widget."] == 0;
    DiscrepancyZero(a, c);
  }

  /** `for word in words: counts[word] += 1` over a `defaultdict(int)`. */
  method Tally(words: seq<string>) returns (counts: map<string, nat>)
    ensures counts.Keys == Vocabulary(words)
    ensures forall w :: w in counts ==> counts[w] == multiset(words)[w]
  {
    counts := map[];
    for k := 0 to |words|
      invariant counts.Keys == Vocabulary(words[..k])
      invariant forall w :: w in counts ==> counts[w] == multiset(words[..k])[w]
    {
      var w := words[k];
      var c := if w in counts then counts[w] else 0;
      assert words[..k + 1] == words[..k] + [w];
      counts := counts[w := c + 1];
    }
    assert words[..|words|] == words;
  }

  /**
   * `compare_strings(str1, str2)`: counts the words of both strings, then sums the
   * count differences over the words of `str1`.
   */
  method CompareStrings(str1: string, str2: string) returns (diff: nat)
    ensures diff == Discrepancy(str1, str2)
  {
    var words1 := Split(str1, ' ');
    var words2 := Split(str2, ' ');
    var counts1 := Tally(words1);
    var counts2 := Tally(words2);
    ghost var m1, m2 := multiset(words1), multiset(words2);
    diff := 0;
    var pending := counts1.Keys;
    while pending != {}
      invariant pending <= counts1.Keys
      invariant diff + GapSum(pending, m1, m2) == GapSum(counts1.Keys, m1, m2)
      decreases pending
    {
      var w :| w in pending;
      var c2 := if w in counts2 then counts2[w] else 0;
      assert c2 == m2[w] by {
        if w !in counts2 { assert w !in words2; }
      }
      GapSumPick(pending, m1, m2, w);
      diff := diff + if counts1[w] >= c2 then counts1[w] - c2 else c2 - counts1[w];
      pending := pending - {w};
    }
  }
}
