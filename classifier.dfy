/** The section classifier: `analyze_mortgage_sections`. For every fragment and
    every catalog rule, the first matching pattern yields a candidate record that
    is inserted into, or replaces, the one record kept per label; the records are
    then sorted by priority (descending), page and label. */
module Classifier {
  import opened Text
  import opened Records
  import opened Rules
  import opened Matching
  import opened Order

  /** The `found_sections` dictionary: its labels in insertion order (the order
      `.values()` yields) and the record of each label. */
  datatype Table = Table(order: seq<string>, entries: map<string, Section>)

  const EmptyTable := Table([], map[])

  /** The record carries a label of the rule table and that label's priority. */
  predicate InCatalog(rules: seq<Rule>, s: Section) {
    exists i :: 0 <= i < |rules| && rules[i].name == s.sectionType && rules[i].priority == s.priority
  }

  /** The order and the keys of the dictionary agree, and no label is in the
      order twice. */
  ghost predicate KeysAgree(t: Table) {
    && (forall i, j :: 0 <= i < j < |t.order| ==> t.order[i] != t.order[j])
    && (forall k :: k in t.entries <==> k in t.order)
  }

  /** Invariant of the dictionary: the keys agree with the order, each record is
      filed under its own label and carries that label's priority. */
  ghost predicate WellFormed(rules: seq<Rule>, t: Table) {
    && KeysAgree(t)
    && (forall k :: k in t.entries ==> t.entries[k].sectionType == k && InCatalog(rules, t.entries[k]))
  }

  /** The record kept for a label, if any. */
  function Get(t: Table, key: string): (r: Option<Section>) {
    if key in t.entries then Some(t.entries[key]) else None
  }

  /** Two records with the same label have the same priority. */
  lemma SameLabelSamePriority(rules: seq<Rule>, a: Section, b: Section)
    requires NamesDistinct(rules)
    requires InCatalog(rules, a) && InCatalog(rules, b) && a.sectionType == b.sectionType
    ensures a.priority == b.priority
  {
    var i :| 0 <= i < |rules| && rules[i].name == a.sectionType && rules[i].priority == a.priority;
    var j :| 0 <= j < |rules| && rules[j].name == b.sectionType && rules[j].priority == b.priority;
    assert i == j;
  }

  /** The keep-best rule for one label, stated on its own: a candidate takes the
      place of the kept record unless it ranks lower. */
  function KeepBest(kept: Option<Section>, candidate: Option<Section>): (r: Option<Section>) {
    match candidate
    case None => kept
    case Some(c) =>
      if kept.None? || Rank(c.confidence) >= Rank(kept.value.confidence) then Some(c) else kept
  }

  /** Insert the candidate's record when its label is new; otherwise overwrite
      page, confidence, snippet and pattern of the existing record when the
      candidate ranks higher, or ranks the same with a priority at least the
      existing one's. */
  function Upsert(t: Table, c: Section): (r: Table) {
    var key := c.sectionType;
    if key !in t.entries then
      Table(t.order + [key], t.entries[key := c])
    else
      var e := t.entries[key];
      if Rank(c.confidence) > Rank(e.confidence) || (c.confidence == e.confidence && c.priority >= e.priority) then
        Table(t.order, t.entries[key := e.(page := c.page, confidence := c.confidence,
                                             textSnippet := c.textSnippet, patternMatched := c.patternMatched)])
      else
        t
  }

  /** Adding a record under a new label keeps the dictionary well formed. */
  lemma InsertWellFormed(rules: seq<Rule>, t: Table, c: Section)
    requires WellFormed(rules, t) && InCatalog(rules, c) && c.sectionType !in t.entries
    ensures WellFormed(rules, Table(t.order + [c.sectionType], t.entries[c.sectionType := c]))
  {
    var key := c.sectionType;
    var u := Table(t.order + [key], t.entries[key := c]);
    assert key !in t.order;
    forall i, j | 0 <= i < j < |u.order| ensures u.order[i] != u.order[j] {
      if j < |t.order| {
        assert u.order[i] == t.order[i] && u.order[j] == t.order[j];
      } else {
        assert u.order[i] == t.order[i] && u.order[j] == key;
      }
    }
    forall k ensures k in u.entries <==> k in u.order {
      assert k in u.order <==> k in t.order || k == key;
    }
  }

  /** Replacing the record of a label by one with the same label and priority
      keeps the dictionary well formed. */
  lemma ReplaceWellFormed(rules: seq<Rule>, t: Table, e: Section)
    requires WellFormed(rules, t) && e.sectionType in t.entries
    requires e.priority == t.entries[e.sectionType].priority
    ensures WellFormed(rules, Table(t.order, t.entries[e.sectionType := e]))
  {
    var previous := t.entries[e.sectionType];
    var i :| 0 <= i < |rules| && rules[i].name == previous.sectionType && rules[i].priority == previous.priority;
    assert InCatalog(rules, e) by {
      assert rules[i].name == e.sectionType && rules[i].priority == e.priority;
    }
  }

  /** An upsert keeps the dictionary well formed, adds the candidate's label and
      leaves every other label's record alone. */
  lemma UpsertWellFormed(rules: seq<Rule>, t: Table, c: Section)
    requires WellFormed(rules, t) && InCatalog(rules, c)
    ensures WellFormed(rules, Upsert(t, c))
    ensures Upsert(t, c).entries.Keys == t.entries.Keys + {c.sectionType}
    ensures forall k :: k in t.entries && k != c.sectionType ==> Upsert(t, c).entries[k] == t.entries[k]
  {
    var key := c.sectionType;
    if key !in t.entries {
      InsertWellFormed(rules, t, c);
    } else {
      var e := t.entries[key];
      ReplaceWellFormed(rules, t, e.(page := c.page, confidence := c.confidence,
                                     textSnippet := c.textSnippet, patternMatched := c.patternMatched));
    }
  }

  /** With distinct labels, the upsert is the keep-best rule: the existing
      record's priority always equals the candidate's, so a candidate of equal
      rank replaces it and one of lower rank does not. */
  lemma UpsertKeepsBest(rules: seq<Rule>, t: Table, c: Section)
    requires NamesDistinct(rules) && WellFormed(rules, t) && InCatalog(rules, c)
    ensures Get(Upsert(t, c), c.sectionType) == KeepBest(Get(t, c.sectionType), Some(c))
  {
    if c.sectionType in t.entries {
      var e := t.entries[c.sectionType];
      SameLabelSamePriority(rules, e, c);
      RankInjective(c.confidence, e.confidence);
    }
  }

  /** What one fragment offers each rule, in rule order. */
  function Candidates(rules: seq<Rule>, f: Fragment): (cands: seq<Option<Section>>)
    ensures |cands| == |rules|
  {
    seq(|rules|, i requires 0 <= i < |rules| => Candidate(f, rules[i]))
  }

  /** Each candidate carries the label and priority of the rule at its place. */
  ghost predicate Fits(rules: seq<Rule>, cands: seq<Option<Section>>) {
    && |cands| == |rules|
    && forall i :: 0 <= i < |cands| && cands[i].Some? ==>
         cands[i].value.sectionType == rules[i].name && cands[i].value.priority == rules[i].priority
  }

  lemma CandidatesFit(rules: seq<Rule>, f: Fragment)
    ensures Fits(rules, Candidates(rules, f))
  {
    forall i | 0 <= i < |rules| {
      CandidateFacts(f, rules[i]);
    }
  }

  /** One rule's candidate applied to the dictionary: the body of the loop over
      rules once the loop over patterns has picked the match. */
  function Apply(t: Table, cand: Option<Section>): (r: Table) {
    match cand
    case None => t
    case Some(c) => Upsert(t, c)
  }

  /** The first n candidates applied in rule order. */
  function ApplyFirst(t: Table, cands: seq<Option<Section>>, n: nat): (r: Table)
    requires n <= |cands|
  {
    if n == 0 then t else Apply(ApplyFirst(t, cands, n - 1), cands[n - 1])
  }

  lemma {:induction false} ApplyFirstWellFormed(rules: seq<Rule>, t: Table, cands: seq<Option<Section>>, n: nat)
    requires WellFormed(rules, t) && Fits(rules, cands) && n <= |cands|
    ensures WellFormed(rules, ApplyFirst(t, cands, n))
  {
    if n > 0 {
      var u := ApplyFirst(t, cands, n - 1);
      ApplyFirstWellFormed(rules, t, cands, n - 1);
      if cands[n - 1].Some? {
        var c := cands[n - 1].value;
        assert InCatalog(rules, c) by {
          assert rules[n - 1].name == c.sectionType && rules[n - 1].priority == c.priority;
        }
        UpsertWellFormed(rules, u, c);
      }
    }
  }

  /** After the first n candidates, the record of rule ri's label has been
      through the keep-best rule with that rule's candidate exactly when ri is
      among them, and is untouched otherwise. */
  lemma {:induction false} ApplyFirstGet(rules: seq<Rule>, t: Table, cands: seq<Option<Section>>, n: nat, ri: nat)
    requires NamesDistinct(rules) && WellFormed(rules, t) && Fits(rules, cands)
    requires n <= |cands| && ri < |cands|
    ensures Get(ApplyFirst(t, cands, n), rules[ri].name) ==
      if ri < n then KeepBest(Get(t, rules[ri].name), cands[ri]) else Get(t, rules[ri].name)
  {
    if n > 0 {
      var u := ApplyFirst(t, cands, n - 1);
      ApplyFirstGet(rules, t, cands, n - 1, ri);
      ApplyFirstWellFormed(rules, t, cands, n - 1);
      if cands[n - 1].Some? {
        var c := cands[n - 1].value;
        assert InCatalog(rules, c) by {
          assert rules[n - 1].name == c.sectionType && rules[n - 1].priority == c.priority;
        }
        UpsertWellFormed(rules, u, c);
        if ri == n - 1 {
          UpsertKeepsBest(rules, u, c);
        } else {
          assert rules[ri].name != rules[n - 1].name;
        }
      }
    }
  }

  /** The dictionary after the given fragments have been processed in order. */
  function Found(rules: seq<Rule>, fragments: seq<Fragment>): (r: Table) {
    if fragments == [] then EmptyTable
    else
      var n := |fragments| - 1;
      ApplyFirst(Found(rules, fragments[..n]), Candidates(rules, fragments[n]), |rules|)
  }

  lemma {:induction false} FoundWellFormed(rules: seq<Rule>, fragments: seq<Fragment>)
    ensures WellFormed(rules, Found(rules, fragments))
  {
    if fragments != [] {
      var n := |fragments| - 1;
      FoundWellFormed(rules, fragments[..n]);
      CandidatesFit(rules, fragments[n]);
      ApplyFirstWellFormed(rules, Found(rules, fragments[..n]), Candidates(rules, fragments[n]), |rules|);
    }
  }

  /** `list(found_sections.values())` */
  function Values(t: Table): (r: seq<Section>)
    requires KeysAgree(t)
  {
    seq(|t.order|, i requires 0 <= i < |t.order| => t.entries[t.order[i]])
  }

  /** The values are the dictionary's records, one per label. */
  lemma ValuesMembers(rules: seq<Rule>, t: Table)
    requires WellFormed(rules, t)
    ensures LabelsDistinct(Values(t))
    ensures forall s: Section :: s in Values(t) <==> s.sectionType in t.entries && t.entries[s.sectionType] == s
  {
    var v := Values(t);
    forall s: Section | s.sectionType in t.entries && t.entries[s.sectionType] == s
      ensures s in v
    {
      var i :| 0 <= i < |t.order| && t.order[i] == s.sectionType;
      assert v[i] == s;
    }
  }

  /** The result of the analysis under a rule table: the records, sorted. */
  function ClassifyWith(rules: seq<Rule>, fragments: seq<Fragment>): (r: seq<Section>) {
    FoundWellFormed(rules, fragments);
    SortSections(Values(Found(rules, fragments)))
  }

  /** The result of the analysis under the catalog. */
  function Classify(fragments: seq<Fragment>): (r: seq<Section>) {
    ClassifyWith(SectionRules, fragments)
  }

  // ---------------------------------------------------------------------------
  // The implementation.

  /** The dictionary insert or in-place update for one matched record. */
  method UpsertRecord(order: seq<string>, entries: map<string, Section>, c: Section)
    returns (order': seq<string>, entries': map<string, Section>)
    ensures Table(order', entries') == Upsert(Table(order, entries), c)
  {
    var key := c.sectionType;
    order', entries' := order, entries;
    if key !in entries' {
      entries' := entries'[key := c];
      order' := order' + [key];
    } else {
      var existing := entries'[key];
      if Rank(c.confidence) > Rank(existing.confidence) || (c.confidence == existing.confidence && c.priority >= existing.priority) {
        entries' := entries'[key := existing.(page := c.page, confidence := c.confidence,
                                              textSnippet := c.textSnippet, patternMatched := c.patternMatched)];
      }
    }
  }

  /** One rule tried on one fragment whose upper-cased text is `text`: the
      patterns in order up to the first that occurs, the confidence of that
      match, and the dictionary update. */
  method ApplyRuleTo(rule: Rule, item: Fragment, text: string, order: seq<string>, entries: map<string, Section>)
    returns (order': seq<string>, entries': map<string, Section>)
    requires text == Upper(item.text)
    ensures Table(order', entries') == Apply(Table(order, entries), Candidate(item, rule))
  {
    order', entries' := order, entries;
    var patterns, key, priority := rule.patterns, rule.name, rule.priority;
    for pi := 0 to |patterns|
      invariant forall j :: 0 <= j < pi ==> !Contains(text, patterns[j])
      invariant order' == order && entries' == entries
    {
      var pattern := patterns[pi];
      if Contains(text, pattern) {
        var confidence := Medium;
        if Strip(text) == pattern {
          confidence := High;
        } else if Contains(text, pattern) && |Split(text)| <= 10 {
          confidence := High;
        } else if CountMatches(patterns, text) > 1 {
          confidence := High;
        }
        var record := Section(key, item.page, confidence, Prefix(item.text, 100), priority, pattern);
        assert Candidate(item, rule) == Some(record) by {
          assert FirstMatch(patterns, text) == Some(pi);
        }
        order', entries' := UpsertRecord(order', entries', record);
        break;
      }
    }
  }

  /** `analyze_mortgage_sections` over a rule table: nested loops over fragments
      and rules that fill the dictionary, then the sort. */
  method AnalyzeSections(sectionRules: seq<Rule>, textContent: seq<Fragment>) returns (sections: seq<Section>)
    ensures sections == ClassifyWith(sectionRules, textContent)
  {
    var foundOrder: seq<string> := [];
    var foundSections: map<string, Section> := map[];
    for n := 0 to |textContent|
      invariant Table(foundOrder, foundSections) == Found(sectionRules, textContent[..n])
    {
      var item := textContent[n];
      var text := Upper(item.text);
      ghost var before := Table(foundOrder, foundSections);
      ghost var cands := Candidates(sectionRules, item);
      for ri := 0 to |sectionRules|
        invariant Table(foundOrder, foundSections) == ApplyFirst(before, cands, ri)
      {
        foundOrder, foundSections := ApplyRuleTo(sectionRules[ri], item, text, foundOrder, foundSections);
      }
      assert textContent[..n + 1][..n] == textContent[..n];
    }
    assert textContent[..|textContent|] == textContent;
    FoundWellFormed(sectionRules, textContent);
    var values := seq(|foundOrder|, i requires 0 <= i < |foundOrder| => foundSections[foundOrder[i]]);
    assert values == Values(Found(sectionRules, textContent));
    sections := SortSections(values);
  }

  /** `analyze_mortgage_sections` with its own catalog. */
  method AnalyzeMortgageSections(textContent: seq<Fragment>) returns (sections: seq<Section>)
    ensures sections == Classify(textContent)
  {
    sections := AnalyzeSections(SectionRules, textContent);
  }
}
