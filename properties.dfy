/** What the analysis promises about its result, for any rule table whose
    labels are distinct (the catalog's are, by `CatalogLabelsDistinct`). */
module Properties {
  import opened Text
  import opened Records
  import opened Rules
  import opened Matching
  import opened Order
  import opened Classifier

  /** What each fragment offers rule r, in fragment order. */
  function Offers(fragments: seq<Fragment>, r: Rule): (offers: seq<Option<Section>>)
    ensures |offers| == |fragments|
  {
    seq(|fragments|, i requires 0 <= i < |fragments| => Candidate(fragments[i], r))
  }

  /** The rank of an offer; 0 for no offer. */
  function Score(o: Option<Section>): (n: int)
    ensures 0 <= n <= 3
    ensures n == 0 <==> o.None?
  {
    match o
    case None => 0
    case Some(c) => Rank(c.confidence)
  }

  /** The record kept for one label after a sequence of offers, by the
      keep-best rule applied offer after offer. */
  function BestOf(offers: seq<Option<Section>>): (r: Option<Section>) {
    if offers == [] then None
    else
      var n := |offers| - 1;
      KeepBest(BestOf(offers[..n]), offers[n])
  }

  /** Offer j is of the highest rank of all offers, and no later offer is of
      that rank. */
  ghost predicate LastBest(offers: seq<Option<Section>>, j: int) {
    && 0 <= j < |offers| && offers[j].Some?
    && (forall i :: 0 <= i < |offers| ==> Score(offers[i]) <= Score(offers[j]))
    && (forall i :: j < i < |offers| ==> Score(offers[i]) < Score(offers[j]))
  }

  /** A further offer ranking below the last best one leaves it in place. */
  lemma LastBestKept(offers: seq<Option<Section>>, j: int)
    requires offers != []
    requires LastBest(offers[..|offers| - 1], j)
    requires Score(offers[|offers| - 1]) < Score(offers[j])
    ensures LastBest(offers, j)
  {
    var n := |offers| - 1;
    var p := offers[..n];
    assert forall i :: 0 <= i < n ==> offers[i] == p[i];
  }

  /** The keep-best fold keeps nothing exactly when there is no offer, and
      otherwise keeps the last offer of the highest rank. */
  lemma {:induction false} BestOfSpec(offers: seq<Option<Section>>)
    ensures BestOf(offers).None? <==> forall j :: 0 <= j < |offers| ==> offers[j].None?
    ensures BestOf(offers).Some? ==> exists j :: LastBest(offers, j) && offers[j] == BestOf(offers)
  {
    if offers != [] {
      var n := |offers| - 1;
      var p := offers[..n];
      BestOfSpec(p);
      assert forall j :: 0 <= j < n ==> offers[j] == p[j];
      var b, c := BestOf(p), offers[n];
      if b.Some? {
        var j :| LastBest(p, j) && p[j] == b;
        if c.Some? && Rank(c.value.confidence) >= Rank(b.value.confidence) {
          assert LastBest(offers, n);
        } else {
          LastBestKept(offers, j);
        }
      } else if c.Some? {
        assert LastBest(offers, n);
      }
    }
  }

  /** Only one offer is the last of the highest rank. */
  lemma LastBestUnique(offers: seq<Option<Section>>, i: int, j: int)
    requires LastBest(offers, i) && LastBest(offers, j)
    ensures i == j
  {
    assert Score(offers[i]) == Score(offers[j]);
  }

  /** Keep-best: the record kept is the last offer of the highest rank, and no
      other. */
  lemma BestIsLastMaximal(offers: seq<Option<Section>>, s: Section)
    ensures BestOf(offers) == Some(s) <==> exists j :: LastBest(offers, j) && offers[j] == Some(s)
  {
    BestOfSpec(offers);
    if exists j :: LastBest(offers, j) && offers[j] == Some(s) {
      var j :| LastBest(offers, j) && offers[j] == Some(s);
      var k :| LastBest(offers, k) && offers[k] == BestOf(offers);
      LastBestUnique(offers, j, k);
    }
  }

  /** Whether a record is kept, and its confidence, depend only on which offers
      are made, not on their order. */
  lemma BestOfOrderIndependent(a: seq<Option<Section>>, b: seq<Option<Section>>)
    requires forall o :: o in a <==> o in b
    ensures BestOf(a).Some? <==> BestOf(b).Some?
    ensures BestOf(a).Some? ==> BestOf(a).value.confidence == BestOf(b).value.confidence
  {
    BestOfSpec(a);
    BestOfSpec(b);
    if BestOf(a).Some? {
      var i :| 0 <= i < |a| && a[i].Some?;
      assert a[i] in b;
    }
    if BestOf(b).Some? {
      var i :| 0 <= i < |b| && b[i].Some?;
      assert b[i] in a;
    }
    if BestOf(a).Some? {
      var ja :| LastBest(a, ja) && a[ja] == BestOf(a);
      var jb :| LastBest(b, jb) && b[jb] == BestOf(b);
      assert a[ja] in b && b[jb] in a;
      assert Score(a[ja]) == Score(b[jb]);
      RankInjective(BestOf(a).value.confidence, BestOf(b).value.confidence);
    }
  }

  /** The record kept for rule r's label after the fragments. */
  function Best(fragments: seq<Fragment>, r: Rule): (best: Option<Section>) {
    BestOf(Offers(fragments, r))
  }

  /** The kept record is what some fragment offered: it carries the rule's
      label and priority and is not of low confidence. */
  lemma BestRecord(fragments: seq<Fragment>, r: Rule)
    requires Best(fragments, r).Some?
    ensures var s := Best(fragments, r).value;
      s.sectionType == r.name && s.priority == r.priority && s.confidence != Low
  {
    var o := Offers(fragments, r);
    BestOfSpec(o);
    var j :| LastBest(o, j) && o[j] == BestOf(o);
    CandidateFacts(fragments[j], r);
  }

  /** A record is kept for a rule exactly when some fragment offers one. */
  lemma BestPresent(fragments: seq<Fragment>, r: Rule)
    ensures Best(fragments, r).Some? <==> exists j :: 0 <= j < |fragments| && Candidate(fragments[j], r).Some?
  {
    var o := Offers(fragments, r);
    BestOfSpec(o);
    if exists j :: 0 <= j < |fragments| && Candidate(fragments[j], r).Some? {
      var j :| 0 <= j < |fragments| && Candidate(fragments[j], r).Some?;
      assert o[j].Some?;
    }
  }

  /** Reordering the fragments changes neither whether a record is kept for a
      rule nor its confidence. */
  lemma BestOrderIndependent(a: seq<Fragment>, b: seq<Fragment>, r: Rule)
    requires multiset(a) == multiset(b)
    ensures Best(a, r).Some? <==> Best(b, r).Some?
    ensures Best(a, r).Some? ==> Best(a, r).value.confidence == Best(b, r).value.confidence
  {
    var oa, ob := Offers(a, r), Offers(b, r);
    forall o ensures o in oa <==> o in ob {
      if o in oa {
        var i :| 0 <= i < |oa| && oa[i] == o;
        assert a[i] in multiset(b);
        var k :| 0 <= k < |b| && b[k] == a[i];
        assert ob[k] == o;
      }
      if o in ob {
        var i :| 0 <= i < |ob| && ob[i] == o;
        assert b[i] in multiset(a);
        var k :| 0 <= k < |a| && a[k] == b[i];
        assert oa[k] == o;
      }
    }
    BestOfOrderIndependent(oa, ob);
  }

  /** The dictionary's record for a rule's label is the keep-best fold. */
  lemma {:induction false} FoundBest(rules: seq<Rule>, fragments: seq<Fragment>, ri: nat)
    requires NamesDistinct(rules) && ri < |rules|
    ensures Get(Found(rules, fragments), rules[ri].name) == Best(fragments, rules[ri])
  {
    if fragments != [] {
      var n := |fragments| - 1;
      var p := fragments[..n];
      FoundBest(rules, p, ri);
      FoundWellFormed(rules, p);
      CandidatesFit(rules, fragments[n]);
      var cands := Candidates(rules, fragments[n]);
      ApplyFirstGet(rules, Found(rules, p), cands, |rules|, ri);
      assert cands[ri] == Candidate(fragments[n], rules[ri]);
      assert Offers(fragments, rules[ri])[..n] == Offers(p, rules[ri]);
    }
  }

  /** The result holds one record per label, strictly ordered by priority
      (descending), page and label, each with a label of the table and that
      label's priority. */
  lemma ClassifyShape(rules: seq<Rule>, fragments: seq<Fragment>)
    ensures LabelsDistinct(ClassifyWith(rules, fragments))
    ensures StrictlySorted(ClassifyWith(rules, fragments))
    ensures forall s :: s in ClassifyWith(rules, fragments) ==> InCatalog(rules, s)
  {
    var t := Found(rules, fragments);
    FoundWellFormed(rules, fragments);
    ValuesMembers(rules, t);
    var v := Values(t);
    var r := ClassifyWith(rules, fragments);
    SortKeepsLabelsDistinct(v);
    forall s | s in r ensures InCatalog(rules, s) {
      assert s in multiset(v);
    }
  }

  /** The result is the only strictly ordered arrangement of its records, so
      any sort by the same key returns it. */
  lemma ClassifyUnique(rules: seq<Rule>, fragments: seq<Fragment>, t: seq<Section>)
    requires StrictlySorted(t) && multiset(t) == multiset(ClassifyWith(rules, fragments))
    ensures t == ClassifyWith(rules, fragments)
  {
    ClassifyShape(rules, fragments);
    StrictlySortedUnique(t, ClassifyWith(rules, fragments));
  }

  /** The records of the result are exactly the ones the keep-best rule keeps,
      one rule at a time. */
  lemma ClassifyMembers(rules: seq<Rule>, fragments: seq<Fragment>)
    requires NamesDistinct(rules)
    ensures forall s :: s in ClassifyWith(rules, fragments) <==>
      exists ri :: 0 <= ri < |rules| && Best(fragments, rules[ri]) == Some(s)
  {
    var t := Found(rules, fragments);
    FoundWellFormed(rules, fragments);
    ValuesMembers(rules, t);
    var v := Values(t);
    var r := ClassifyWith(rules, fragments);
    assert multiset(r) == multiset(v);
    forall s ensures s in r <==> exists ri :: 0 <= ri < |rules| && Best(fragments, rules[ri]) == Some(s) {
      if s in r {
        assert s in multiset(v);
        var ri :| 0 <= ri < |rules| && rules[ri].name == s.sectionType && rules[ri].priority == s.priority;
        FoundBest(rules, fragments, ri);
      }
      if exists ri :: 0 <= ri < |rules| && Best(fragments, rules[ri]) == Some(s) {
        var ri :| 0 <= ri < |rules| && Best(fragments, rules[ri]) == Some(s);
        FoundBest(rules, fragments, ri);
        assert s in v;
        assert s in multiset(r);
      }
    }
  }

  /** A label is in the result exactly when one of its rule's patterns occurs
      in the upper-cased text of some fragment. */
  lemma ClassifyPresence(rules: seq<Rule>, fragments: seq<Fragment>, ri: nat)
    requires NamesDistinct(rules) && ri < |rules|
    ensures (exists s :: s in ClassifyWith(rules, fragments) && s.sectionType == rules[ri].name) <==>
      exists j, p :: 0 <= j < |fragments| && 0 <= p < |rules[ri].patterns| &&
        Contains(Upper(fragments[j].text), rules[ri].patterns[p])
  {
    var r := rules[ri];
    ClassifyMembers(rules, fragments);
    BestPresent(fragments, r);
    if exists s :: s in ClassifyWith(rules, fragments) && s.sectionType == r.name {
      var s :| s in ClassifyWith(rules, fragments) && s.sectionType == r.name;
      var rk :| 0 <= rk < |rules| && Best(fragments, rules[rk]) == Some(s);
      BestRecord(fragments, rules[rk]);
      assert rk == ri;
      var j :| 0 <= j < |fragments| && Candidate(fragments[j], r).Some?;
      CandidateFacts(fragments[j], r);
    }
    if exists j, p :: 0 <= j < |fragments| && 0 <= p < |r.patterns| && Contains(Upper(fragments[j].text), r.patterns[p]) {
      var j, p :| 0 <= j < |fragments| && 0 <= p < |r.patterns| && Contains(Upper(fragments[j].text), r.patterns[p]);
      CandidateFacts(fragments[j], r);
      BestRecord(fragments, r);
      assert Best(fragments, r).value in ClassifyWith(rules, fragments);
    }
  }

  /** Every record of the result is what the last fragment of highest rank
      offered its rule: that fragment's page, a prefix of at most 100 characters
      of its text, the first of the rule's patterns that occurs in it, and a
      confidence that is never low. */
  lemma ClassifyRecord(rules: seq<Rule>, fragments: seq<Fragment>, s: Section)
    requires NamesDistinct(rules) && s in ClassifyWith(rules, fragments)
    ensures exists ri, j ::
      && 0 <= ri < |rules| && LastBest(Offers(fragments, rules[ri]), j)
      && Candidate(fragments[j], rules[ri]) == Some(s)
      && s.sectionType == rules[ri].name && s.priority == rules[ri].priority
      && s.page == fragments[j].page
      && s.textSnippet <= fragments[j].text && |s.textSnippet| <= 100
      && s.confidence != Low
      && FirstMatch(rules[ri].patterns, Upper(fragments[j].text)).Some?
      && s.patternMatched == rules[ri].patterns[FirstMatch(rules[ri].patterns, Upper(fragments[j].text)).value]
  {
    ClassifyMembers(rules, fragments);
    var ri :| 0 <= ri < |rules| && Best(fragments, rules[ri]) == Some(s);
    var o := Offers(fragments, rules[ri]);
    BestOfSpec(o);
    var j :| LastBest(o, j) && o[j] == Some(s);
    CandidateFacts(fragments[j], rules[ri]);
  }

  /** The result is empty exactly when no pattern of any rule occurs in any
      fragment; in particular no fragments give no sections. */
  lemma ClassifyEmpty(rules: seq<Rule>, fragments: seq<Fragment>)
    requires NamesDistinct(rules)
    ensures ClassifyWith(rules, fragments) == [] <==>
      forall j, ri, p :: 0 <= j < |fragments| && 0 <= ri < |rules| && 0 <= p < |rules[ri].patterns| ==>
        !Contains(Upper(fragments[j].text), rules[ri].patterns[p])
  {
    var r := ClassifyWith(rules, fragments);
    if r != [] {
      ClassifyShape(rules, fragments);
      assert r[0] in r;
      var ri :| 0 <= ri < |rules| && rules[ri].name == r[0].sectionType && rules[ri].priority == r[0].priority;
      ClassifyPresence(rules, fragments, ri);
    }
    forall j, ri, p | 0 <= j < |fragments| && 0 <= ri < |rules| && 0 <= p < |rules[ri].patterns| &&
        Contains(Upper(fragments[j].text), rules[ri].patterns[p])
      ensures r != []
    {
      ClassifyPresence(rules, fragments, ri);
    }
  }

  /** Reordering the fragments keeps the set of labels found and the confidence
      of each; page, snippet and pattern may change. */
  lemma ClassifyOrderIndependent(rules: seq<Rule>, a: seq<Fragment>, b: seq<Fragment>)
    requires NamesDistinct(rules) && multiset(a) == multiset(b)
    ensures forall s :: s in ClassifyWith(rules, a) ==>
      exists t :: t in ClassifyWith(rules, b) && t.sectionType == s.sectionType && t.confidence == s.confidence
  {
    ClassifyMembers(rules, a);
    ClassifyMembers(rules, b);
    forall s | s in ClassifyWith(rules, a)
      ensures exists t :: t in ClassifyWith(rules, b) && t.sectionType == s.sectionType && t.confidence == s.confidence
    {
      var ri :| 0 <= ri < |rules| && Best(a, rules[ri]) == Some(s);
      BestOrderIndependent(a, b, rules[ri]);
      BestRecord(a, rules[ri]);
      BestRecord(b, rules[ri]);
      var t := Best(b, rules[ri]).value;
      assert t in ClassifyWith(rules, b);
    }
  }
}
