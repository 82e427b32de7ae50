/**
 * The two-document claim matcher of reorder_docs.py: `patent_to_list` reads the
 * claims of a Google Patents document, `case_to_list` those of a case document, and
 * `reorder_case_claims` puts the case claims in the patent's order. A document is
 * its sequence of paragraph texts; opening and saving .docx files is not modelled.
 */
module DocClaims {
  import opened Outcomes
  import opened Text
  import opened Aligner

  // ---------------------------------------------------------------------------
  // patent_to_list
  // ---------------------------------------------------------------------------

  /** `para[:4] == "What"`: the "What is claimed is:" header that opens the claims. */
  predicate IsHeader(para: string) {
    |para| >= 4 && para[..4] == "What"
  }

  /**
   * What patent_to_list's loop appends from paragraph `i` on, given its two flags.
   * In one pass it reads `para`, turns `beforeFooter` off at an empty paragraph after
   * the header, appends `para` (and steps over one paragraph) while both flags hold,
   * steps over one more paragraph at a header, and always advances by one.
   */
  function PatentScan(doc: seq<string>, i: nat, afterHeader: bool, beforeFooter: bool): seq<string>
    decreases |doc| - i
  {
    if i >= |doc| then []
    else
      var para := doc[i];
      var footerNow := if afterHeader && para == "" then false else beforeFooter;
      var taken := afterHeader && footerNow;
      var next := i + (if taken then 1 else 0) + (if IsHeader(para) then 1 else 0) + 1;
      (if taken then [para] else []) + PatentScan(doc, next, afterHeader || IsHeader(para), footerNow)
  }

  /** `patent_to_list(file)` over the paragraphs `doc` of the file. */
  method PatentToList(doc: seq<string>) returns (paras: seq<string>)
    ensures paras == PatentScan(doc, 0, false, true)
  {
    paras := [];
    var afterHeader, beforeFooter := false, true;
    var i := 0;
    while i < |doc|
      invariant paras + PatentScan(doc, i, afterHeader, beforeFooter) == PatentScan(doc, 0, false, true)
      decreases |doc| - i
    {
      var para := doc[i];
      if afterHeader && para == "" {
        beforeFooter := false;
      }
      if afterHeader && beforeFooter {
        paras := paras + [para];
        i := i + 1;
      }
      if IsHeader(para) {
        afterHeader := true;
        i := i + 1;
      }
      i := i + 1;
    }
  }

  /** The index of the first header paragraph, if any. */
  function FirstHeader(doc: seq<string>, from: nat): (r: Option<nat>)
    decreases |doc| - from
    ensures r.None? <==> forall k :: from <= k < |doc| ==> !IsHeader(doc[k])
    ensures r.Some? ==> from <= r.value < |doc| && IsHeader(doc[r.value])
    ensures r.Some? ==> forall k :: from <= k < r.value ==> !IsHeader(doc[k])
  {
    if from >= |doc| then None
    else if IsHeader(doc[from]) then Some(from)
    else FirstHeader(doc, from + 1)
  }

  /**
   * The claims of a patent read from paragraph `j`: every second paragraph up to the
   * first empty one or the end of the document, where a claim that itself starts
   * with "What" makes the reader step over one paragraph more.
   */
  function ClaimsFrom(doc: seq<string>, j: nat): seq<string>
    decreases |doc| - j
  {
    if j >= |doc| || doc[j] == "" then []
    else [doc[j]] + ClaimsFrom(doc, j + if IsHeader(doc[j]) then 3 else 2)
  }

  /** Once past the footer, nothing more is appended. */
  lemma {:induction false} PatentAfterFooter(doc: seq<string>, i: nat)
    ensures PatentScan(doc, i, true, false) == []
    decreases |doc| - i
  {
    if i < |doc| {
      PatentAfterFooter(doc, i + (if IsHeader(doc[i]) then 1 else 0) + 1);
    }
  }

  /** Between the header and the footer the scan reads exactly `ClaimsFrom`. */
  lemma {:induction false} PatentInClaims(doc: seq<string>, j: nat)
    ensures PatentScan(doc, j, true, true) == ClaimsFrom(doc, j)
    decreases |doc| - j
  {
    if j < |doc| {
      if doc[j] == "" {
        assert !IsHeader(doc[j]);
        PatentAfterFooter(doc, j + 1);
      } else {
        PatentInClaims(doc, j + (if IsHeader(doc[j]) then 3 else 2));
      }
    }
  }

  /** Before the header nothing is appended; the header moves the scan two paragraphs on. */
  lemma {:induction false} PatentBeforeHeader(doc: seq<string>, i: nat, h: nat)
    requires i <= h < |doc| && IsHeader(doc[h])
    requires forall k :: i <= k < h ==> !IsHeader(doc[k])
    ensures PatentScan(doc, i, false, true) == ClaimsFrom(doc, h + 2)
    decreases h - i
  {
    if i == h {
      PatentInClaims(doc, h + 2);
    } else {
      PatentBeforeHeader(doc, i + 1, h);
    }
  }

  /** Without any header paragraph, nothing is appended. */
  lemma {:induction false} PatentWithoutHeader(doc: seq<string>, i: nat)
    requires forall k :: i <= k < |doc| ==> !IsHeader(doc[k])
    ensures PatentScan(doc, i, false, true) == []
    decreases |doc| - i
  {
    if i < |doc| {
      PatentWithoutHeader(doc, i + 1);
    }
  }

  /**
   * patent_to_list returns no claim when the document has no "What" header, and
   * otherwise the claims read from the second paragraph after the first header.
   */
  lemma PatentToListMeaning(doc: seq<string>)
    ensures FirstHeader(doc, 0).None? ==> PatentScan(doc, 0, false, true) == []
    ensures FirstHeader(doc, 0).Some? ==>
      PatentScan(doc, 0, false, true) == ClaimsFrom(doc, FirstHeader(doc, 0).value + 2)
  {
    match FirstHeader(doc, 0)
    case None => PatentWithoutHeader(doc, 0);
    case Some(h) => PatentBeforeHeader(doc, 0, h);
  }

  /** Every claim read is a non-empty paragraph. */
  lemma {:induction false} ClaimsFromNonEmpty(doc: seq<string>, j: nat)
    ensures forall t :: 0 <= t < |ClaimsFrom(doc, j)| ==> ClaimsFrom(doc, j)[t] != ""
    decreases |doc| - j
  {
    if j < |doc| && doc[j] != "" {
      ClaimsFromNonEmpty(doc, j + if IsHeader(doc[j]) then 3 else 2);
    }
  }

  /** No claim patent_to_list returns is empty. */
  lemma PatentClaimsNonEmpty(doc: seq<string>)
    ensures forall t :: 0 <= t < |PatentScan(doc, 0, false, true)| ==> PatentScan(doc, 0, false, true)[t] != ""
  {
    PatentToListMeaning(doc);
    if FirstHeader(doc, 0).Some? {
      ClaimsFromNonEmpty(doc, FirstHeader(doc, 0).value + 2);
    }
  }

  /**
   * When no paragraph from `j` on starts with "What", the claims are the paragraphs
   * `j`, `j + 2`, `j + 4`, ..., in order, up to the end of the document or the first
   * of them that is empty.
   */
  lemma {:induction false} ClaimsFromStride(doc: seq<string>, j: nat)
    requires forall k :: j <= k < |doc| ==> !IsHeader(doc[k])
    ensures var r := ClaimsFrom(doc, j);
      && (forall t :: 0 <= t < |r| ==> j + 2 * t < |doc| && r[t] == doc[j + 2 * t] != "")
      && (j + 2 * |r| >= |doc| || doc[j + 2 * |r|] == "")
    decreases |doc| - j
  {
    ClaimsFromStop(doc, j);
    if j < |doc| && doc[j] != "" {
      assert !IsHeader(doc[j]);
      var rest := ClaimsFrom(doc, j + 2);
      var r := ClaimsFrom(doc, j);
      assert r == [doc[j]] + rest;
      ClaimsFromStride(doc, j + 2);
      forall t | 0 < t < |r|
        ensures j + 2 * t < |doc| && r[t] == doc[j + 2 * t]
      {
        assert r[t] == rest[t - 1];
        assert j + 2 + 2 * (t - 1) == j + 2 * t;
      }
    }
  }

  /** Under the same condition, the read stops at the end of the document or at an empty paragraph. */
  lemma {:induction false} ClaimsFromStop(doc: seq<string>, j: nat)
    requires forall k :: j <= k < |doc| ==> !IsHeader(doc[k])
    ensures j + 2 * |ClaimsFrom(doc, j)| >= |doc| || doc[j + 2 * |ClaimsFrom(doc, j)|] == ""
    decreases |doc| - j
  {
    if j < |doc| && doc[j] != "" {
      assert !IsHeader(doc[j]);
      assert |ClaimsFrom(doc, j)| == 1 + |ClaimsFrom(doc, j + 2)|;
      ClaimsFromStop(doc, j + 2);
    }
  }

  // ---------------------------------------------------------------------------
  // case_to_list
  // ---------------------------------------------------------------------------

  /** `"(Canceled)" in item`: a cancelled claim, skipped whole. */
  predicate Cancelled(item: string) {
    Contains(item, "(Canceled)")
  }

  /** `item.replace("\n", "").replace("\t", " ")`. */
  function Clean(item: string): (r: string)
    ensures '\n' !in r && '\t' !in r
  {
    var noBreaks := Remove(item, '\n');
    var r := Substitute(noBreaks, '\t', ' ');
    assert forall k :: 0 <= k < |r| ==> r[k] != '\n' && r[k] != '\t';
    r
  }

  /**
   * What cleaning keeps: a paragraph without a newline comes back with each tab
   * turned into a space and every other character in its place.
   */
  lemma CleanKeeps(item: string)
    ensures '\n' !in item ==> Clean(item) == Substitute(item, '\t', ' ')
  {
    if '\n' !in item {
      RemoveAbsent(item, '\n');
    }
  }

  /** `len(item) > 1 and "." in item[1:5]`: a paragraph that opens a new claim, such as "12. A method". */
  predicate OpensClaim(item: string) {
    |item| > 1 && '.' in PySlice(item, 1, 5)
  }

  /** A paragraph opens a claim exactly when it has a "." at one of the indices 1 to 4. */
  lemma OpensClaimMeaning(item: string)
    ensures OpensClaim(item) <==> exists k :: 1 <= k < 5 && k < |item| && item[k] == '.'
  {
    var window := PySlice(item, 1, 5);
    if '.' in window {
      var t :| 0 <= t < |window| && window[t] == '.';
      assert item[1 + t] == '.';
    }
    if exists k :: 1 <= k < 5 && k < |item| && item[k] == '.' {
      var k :| 1 <= k < 5 && k < |item| && item[k] == '.';
      assert window[k - 1] == '.';
    }
  }

  /** case_to_list's loop state: the claims closed so far (`paras`) and the one being built (`para`). */
  datatype CaseState = CaseState(done: seq<string>, cur: string)

  /** One pass of case_to_list's loop over paragraph `item`. */
  function CaseStep(s: CaseState, item: string): CaseState {
    if Cancelled(item) then s
    else
      var text := Clean(item);
      if OpensClaim(text) then CaseState(s.done + [s.cur], " " + text)
      else CaseState(s.done, s.cur + " " + text)
  }

  /** The loop run over `items` from state `s`. */
  function CaseFrom(s: CaseState, items: seq<string>): CaseState
    decreases |items|
  {
    if items == [] then s else CaseFrom(CaseStep(s, items[0]), items[1..])
  }

  /** What `case_to_list` returns for the paragraphs `doc`: the closed claims and the last one, less the first. */
  function CaseClaims(doc: seq<string>): seq<string> {
    var s := CaseFrom(CaseState([], ""), doc);
    (s.done + [s.cur])[1..]
  }

  /** The body of case_to_list's loop: skip a cancelled paragraph, clean it, close the claim it opens, append it. */
  method CaseLoopBody(paras: seq<string>, para: string, item: string) returns (paras': seq<string>, para': string)
    ensures CaseState(paras', para') == CaseStep(CaseState(paras, para), item)
  {
    if Cancelled(item) {
      return paras, para;
    }
    var text := Clean(item);
    if OpensClaim(text) {
      paras', para' := paras + [para], " " + text;
    } else {
      paras', para' := paras, para + " " + text;
    }
  }


  /** `case_to_list(file)` over the paragraphs `doc` of the file. */
  method CaseToList(doc: seq<string>) returns (claims: seq<string>)
    ensures claims == CaseClaims(doc)
  {
    var paras: seq<string> := [];
    var para := "";
    var i := 0;
    while i < |doc|
      invariant i <= |doc|
      invariant CaseFrom(CaseState(paras, para), doc[i..]) == CaseFrom(CaseState([], ""), doc)
    {
      assert doc[i..][0] == doc[i] && doc[i..][1..] == doc[i + 1..];
      paras, para := CaseLoopBody(paras, para, doc[i]);
      i := i + 1;
    }
    assert doc[|doc|..] == [];
    paras := paras + [para];
    claims := paras[1..];
  }

  /** Running the loop over one more paragraph is one more step. */
  lemma {:induction false} CaseFromSnoc(s: CaseState, items: seq<string>, p: string)
    ensures CaseFrom(s, items + [p]) == CaseStep(CaseFrom(s, items), p)
    decreases |items|
  {
    if items == [] {
      assert [] + [p] == [p];
      assert [p][1..] == [];
    } else {
      assert (items + [p])[0] == items[0];
      assert (items + [p])[1..] == items[1..] + [p];
      CaseFromSnoc(CaseStep(s, items[0]), items[1..], p);
    }
  }

  /**
   * What one more paragraph `p` does to case_to_list's result: a cancelled one
   * nothing; one that opens a claim starts a new claim " " + its cleaned text; any
   * other one continues the last claim with " " and its cleaned text, or is
   * dropped with the preamble when no claim has opened yet.
   */
  lemma CaseClaimsSnoc(xs: seq<string>, p: string)
    ensures Cancelled(p) ==> CaseClaims(xs + [p]) == CaseClaims(xs)
    ensures !Cancelled(p) && OpensClaim(Clean(p)) ==>
      CaseClaims(xs + [p]) == CaseClaims(xs) + [" " + Clean(p)]
    ensures !Cancelled(p) && !OpensClaim(Clean(p)) && CaseClaims(xs) != [] ==>
      var n := |CaseClaims(xs)|;
      CaseClaims(xs + [p]) == CaseClaims(xs)[..n - 1] + [CaseClaims(xs)[n - 1] + " " + Clean(p)]
    ensures !Cancelled(p) && !OpensClaim(Clean(p)) && CaseClaims(xs) == [] ==>
      CaseClaims(xs + [p]) == []
  {
    var st := CaseFrom(CaseState([], ""), xs);
    CaseFromSnoc(CaseState([], ""), xs, p);
    var next := CaseStep(st, p);
    var all := st.done + [st.cur];
    assert CaseClaims(xs) == all[1..];
    if !Cancelled(p) {
      var text := Clean(p);
      if OpensClaim(text) {
        assert next.done + [next.cur] == all + [" " + text];
        assert (all + [" " + text])[1..] == all[1..] + [" " + text];
      } else if st.done != [] {
        assert all[1..] == st.done[1..] + [st.cur];
        assert (next.done + [next.cur])[1..] == st.done[1..] + [st.cur + " " + text];
      }
    }
  }

  /** The cleaned text of every paragraph that opens a claim, in order. */
  function Openings(doc: seq<string>): seq<string>
    decreases |doc|
  {
    if doc == [] then []
    else
      var here := if !Cancelled(doc[0]) && OpensClaim(Clean(doc[0])) then [Clean(doc[0])] else [];
      here + Openings(doc[1..])
  }

  lemma OpeningsCons(items: seq<string>)
    requires items != []
    ensures Openings(items) == Openings([items[0]]) + Openings(items[1..])
  {
    assert [items[0]][1..] == [];
  }

  /** `claim` begins with a space and then the opening paragraph `opening`. */
  predicate OpenedBy(claim: string, opening: string) {
    " " + opening <= claim
  }

  /** One closed claim per opening so far, each beginning with its opening (the first entry is the preamble). */
  ghost predicate Segmented(s: CaseState, openings: seq<string>) {
    |s.done| == |openings| &&
    forall t :: 0 <= t < |openings| ==> OpenedBy((s.done + [s.cur])[t + 1], openings[t])
  }

  lemma StepSegmented(s: CaseState, openings: seq<string>, item: string)
    requires Segmented(s, openings)
    ensures Segmented(CaseStep(s, item), openings + Openings([item]))
  {
    assert Openings([item])
      == (if !Cancelled(item) && OpensClaim(Clean(item)) then [Clean(item)] else []) + Openings([]);
    var all := s.done + [s.cur];
    if !Cancelled(item) {
      var text := Clean(item);
      var next := CaseStep(s, item);
      if OpensClaim(text) {
        assert next.done + [next.cur] == all + [" " + text];
      } else if |openings| > 0 {
        var last := |openings| - 1;
        assert OpenedBy(all[last + 1], openings[last]);
        assert all[last + 1] + " " + text == next.cur;
        assert (next.done + [next.cur])[last + 1] == all[last + 1] + " " + text;
        forall t | 0 <= t < last
          ensures OpenedBy((next.done + [next.cur])[t + 1], openings[t])
        {
          assert (next.done + [next.cur])[t + 1] == all[t + 1];
        }
      }
    }
  }

  lemma {:induction false} CaseFromSegmented(s: CaseState, openings: seq<string>, items: seq<string>)
    requires Segmented(s, openings)
    ensures Segmented(CaseFrom(s, items), openings + Openings(items))
    decreases |items|
  {
    if items == [] {
      assert openings + [] == openings;
    } else {
      var next := CaseStep(s, items[0]);
      var here := Openings([items[0]]);
      StepSegmented(s, openings, items[0]);
      CaseFromSegmented(next, openings + here, items[1..]);
      OpeningsCons(items);
      assert openings + here + Openings(items[1..]) == openings + Openings(items);
    }
  }

  /**
   * case_to_list returns one claim per paragraph that opens a claim (none when no
   * paragraph does), and claim `t` begins with " " and the cleaned `t`-th opening.
   */
  lemma CaseClaimsShape(doc: seq<string>)
    ensures |CaseClaims(doc)| == |Openings(doc)|
    ensures forall t :: 0 <= t < |Openings(doc)| ==> OpenedBy(CaseClaims(doc)[t], Openings(doc)[t])
    ensures Openings(doc) == [] ==> CaseClaims(doc) == []
  {
    CaseFromSegmented(CaseState([], ""), [], doc);
    assert [] + Openings(doc) == Openings(doc);
  }

  /** A paragraph shorter than "(Canceled)" is never cancelled. */
  lemma ShortNotCancelled(item: string)
    requires |item| < |"(Canceled)"|
    ensures !Cancelled(item)
  {
  }

  /**
   * A paragraph that is already clean and opens a claim comes back from
   * case_to_list with one more leading space, so a claim case_to_list returned,
   * which begins with " ", is not returned as it was when read again.
   */
  lemma ReadAgain(claim: string)
    requires !Cancelled(claim) && '\n' !in claim && '\t' !in claim && OpensClaim(claim)
    ensures CaseClaims([claim]) == [" " + claim]
    ensures CaseClaims([claim]) != [claim]
  {
    CleanKeeps(claim);
    assert Substitute(claim, '\t', ' ') == claim;
    assert [claim][1..] == [];
    assert CaseFrom(CaseState([], ""), [claim]) == CaseState([""], " " + claim);
    assert |" " + claim| != |claim|;
  }

  /** "1. A" is read as " 1. A", and " 1. A" read again as "  1. A". */
  lemma ReadAgainExample(para: string, claim: string)
    requires para == "1. A" && claim == " 1. A"
    ensures CaseClaims([para]) == [claim]
    ensures CaseClaims([claim]) == [" " + claim] && CaseClaims([claim]) != [claim]
  {
    ShortNotCancelled(para);
    ShortNotCancelled(claim);
    assert para[1] == '.' && claim[2] == '.';
    OpensClaimMeaning(para);
    OpensClaimMeaning(claim);
    ReadAgain(para);
    ReadAgain(claim);
    assert " " + para == claim;
  }

  /** " 1000. B" is clean, not cancelled, and has no "." at indices 1 to 4, so it does not open a claim. */
  lemma FourDigitsContinue(claim: string)
    requires claim == " 1000. B"
    ensures !Cancelled(claim) && Clean(claim) == claim && !OpensClaim(Clean(claim))
  {
    ShortNotCancelled(claim);
    CleanKeeps(claim);
    assert Substitute(claim, '\t', ' ') == claim;
    assert claim[1] != '.' && claim[2] != '.' && claim[3] != '.' && claim[4] != '.';
    OpensClaimMeaning(claim);
  }

  /**
   * Read again, a returned claim numbered 1000 or more has its "." at index 5,
   * past `item[1:5]`, so it no longer opens a claim and is appended to the claim
   * before it.
   */
  lemma ReadAgainMerges(first: string, claim: string)
    requires first == " 1. A" && claim == " 1000. B"
    ensures CaseClaims([first, claim]) == [" " + first + " " + claim]
  {
    ShortNotCancelled(first);
    assert first[2] == '.';
    OpensClaimMeaning(first);
    ReadAgain(first);
    FourDigitsContinue(claim);
    CaseClaimsSnoc([first], claim);
    assert [first] + [claim] == [first, claim];
  }

  /** Neither the closed claims nor the one being built hold a newline or a tab. */
  ghost predicate Flat(s: CaseState) {
    ('\n' !in s.cur && '\t' !in s.cur) &&
    forall t :: 0 <= t < |s.done| ==> '\n' !in s.done[t] && '\t' !in s.done[t]
  }

  lemma {:induction false} CaseFromFlat(s: CaseState, items: seq<string>)
    requires Flat(s)
    ensures Flat(CaseFrom(s, items))
    decreases |items|
  {
    if items != [] {
      var next := CaseStep(s, items[0]);
      if !Cancelled(items[0]) {
        var text := Clean(items[0]);
        assert '\n' !in " " + text && '\t' !in " " + text;
        assert '\n' !in s.cur + " " + text && '\t' !in s.cur + " " + text;
        if OpensClaim(text) {
          forall t | 0 <= t < |next.done|
            ensures '\n' !in next.done[t] && '\t' !in next.done[t]
          {
            if t < |s.done| {
              assert next.done[t] == s.done[t];
            }
          }
        }
      }
      assert Flat(next);
      CaseFromFlat(next, items[1..]);
    }
  }

  /** No claim case_to_list returns holds a newline or a tab. */
  lemma CaseClaimsFlat(doc: seq<string>)
    ensures forall t :: 0 <= t < |CaseClaims(doc)| ==> '\n' !in CaseClaims(doc)[t] && '\t' !in CaseClaims(doc)[t]
  {
    CaseFromFlat(CaseState([], ""), doc);
    var s := CaseFrom(CaseState([], ""), doc);
    forall t | 0 <= t < |CaseClaims(doc)|
      ensures '\n' !in CaseClaims(doc)[t] && '\t' !in CaseClaims(doc)[t]
    {
      assert CaseClaims(doc)[t] == (s.done + [s.cur])[t + 1];
    }
  }

  lemma {:induction false} CaseFromSkip(s: CaseState, xs: seq<string>, c: string, ys: seq<string>)
    requires Cancelled(c)
    ensures CaseFrom(s, xs + [c] + ys) == CaseFrom(s, xs + ys)
    decreases |xs|
  {
    if xs == [] {
      assert ([] + [c] + ys)[1..] == ys;
      assert [] + ys == ys;
    } else {
      assert (xs + [c] + ys)[1..] == xs[1..] + [c] + ys;
      assert (xs + ys)[1..] == xs[1..] + ys;
      CaseFromSkip(CaseStep(s, xs[0]), xs[1..], c, ys);
    }
  }

  /** A cancelled paragraph contributes nothing, wherever it stands. */
  lemma CancelledIgnored(xs: seq<string>, c: string, ys: seq<string>)
    requires Cancelled(c)
    ensures CaseClaims(xs + [c] + ys) == CaseClaims(xs + ys)
  {
    CaseFromSkip(CaseState([], ""), xs, c, ys);
  }

  lemma {:induction false} CaseFromAppend(s: CaseState, xs: seq<string>, ys: seq<string>)
    ensures CaseFrom(s, xs + ys) == CaseFrom(CaseFrom(s, xs), ys)
    decreases |xs|
  {
    if xs == [] {
      assert [] + ys == ys;
    } else {
      assert (xs + ys)[1..] == xs[1..] + ys;
      CaseFromAppend(CaseStep(s, xs[0]), xs[1..], ys);
    }
  }

  /** Two loop states that differ at most in the text gathered before the first claim. */
  predicate SamePastPreamble(a: CaseState, b: CaseState) {
    |a.done| == |b.done| && (a.done + [a.cur])[1..] == (b.done + [b.cur])[1..]
  }

  lemma {:induction false} CaseFromPreamble(a: CaseState, b: CaseState, items: seq<string>)
    requires SamePastPreamble(a, b)
    ensures SamePastPreamble(CaseFrom(a, items), CaseFrom(b, items))
    decreases |items|
  {
    if items != [] {
      var a', b' := CaseStep(a, items[0]), CaseStep(b, items[0]);
      if !Cancelled(items[0]) {
        var text := Clean(items[0]);
        if OpensClaim(text) {
          assert (a'.done + [a'.cur])[1..] == (a.done + [a.cur])[1..] + [" " + text];
          assert (b'.done + [b'.cur])[1..] == (b.done + [b.cur])[1..] + [" " + text];
        } else if |a.done| > 0 {
          assert (a.done + [a.cur])[1..] == a.done[1..] + [a.cur];
          assert (b.done + [b.cur])[1..] == b.done[1..] + [b.cur];
          var x := (a.done + [a.cur])[1..];
          assert x[..|x| - 1] == a.done[1..] && x[|x| - 1] == a.cur;
          assert x[..|x| - 1] == b.done[1..] && x[|x| - 1] == b.cur;
          assert (a'.done + [a'.cur])[1..] == a.done[1..] + [a'.cur];
          assert (b'.done + [b'.cur])[1..] == b.done[1..] + [b'.cur];
        }
      }
      CaseFromPreamble(a', b', items[1..]);
    }
  }

  /** Paragraphs before the first one that opens a claim are discarded. */
  lemma PreambleDiscarded(pre: seq<string>, rest: seq<string>)
    requires Openings(pre) == []
    ensures CaseClaims(pre + rest) == CaseClaims(rest)
  {
    var start := CaseState([], "");
    CaseFromAppend(start, pre, rest);
    CaseFromSegmented(start, [], pre);
    var mid := CaseFrom(start, pre);
    assert |mid.done| == 0;
    CaseFromPreamble(mid, start, rest);
  }

  // ---------------------------------------------------------------------------
  // reorder_case_claims
  // ---------------------------------------------------------------------------

  /**
   * `reorder_case_claims(patent_file, case_file)` up to the list of paragraphs it
   * writes: the case claims in the patent's claim order, each one the case claim
   * with the fewest word-count differences from the patent claim at its position
   * (the earliest on a tie, a case claim may serve twice), then "" for every case
   * claim beyond the patent's count. It fails when a claim has no ".", when the case
   * has no claim but the patent has, or when the patent has more claims than the case.
   */
  method ReorderCaseClaims(patentDoc: seq<string>, caseDoc: seq<string>) returns (r: Result<seq<string>>)
    ensures var key, other := PatentScan(patentDoc, 0, false, true), CaseClaims(caseDoc);
      && (r.Ok? <==> key == [] || (other != [] && |key| <= |other| && AllNumbered(key) && AllNumbered(other)))
      && (r.Err? && key != [] && other == [] ==> r.error == NoUnmatchedCandidate)
      && (r.Err? && other != [] && !(AllNumbered(key) && AllNumbered(other)) ==> r.error == SeparatorNotFound)
      && (r.Err? && AllNumbered(key) && AllNumbered(other) && other != [] ==> r.error == IndexOutOfRange)
      && (r.Ok? ==> |r.value| == |other|)
      && (r.Ok? ==> forall i :: 0 <= i < |key| ==> exists c: nat :: EarliestBest(key[i], other, c) && r.value[i] == other[c])
      && (r.Ok? ==> forall i :: |key| <= i < |other| ==> r.value[i] == "")
  {
    var other := CaseToList(caseDoc);
    var key := PatentToList(patentDoc);
    DiffsSucceeds(key, other, false);
    var diffs := ComputeDiffs(key, other, false);
    if diffs.Err? {
      return Err(diffs.error);
    }
    var rows := diffs.value;
    DiffsComputed(key, other, false, rows);
    forall i | 0 <= i < |key|
      ensures rows[i].closest < |other| && EarliestBest(key[i], other, rows[i].closest)
    {
      DiffsRow(key, other, false, rows, i);
      RelaxedPicksEarliestBest(key, other, rows, i);
    }
    var pair := ReorderLists(key, other, rows);
    if pair.Err? {
      return Err(pair.error);
    }
    r := Ok(pair.value.1);
  }
}
