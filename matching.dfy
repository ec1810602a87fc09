/** What one rule makes of one fragment: the first of its patterns that occurs
    in the upper-cased text, the confidence of that match, and the record the
    match would contribute. */
module Matching {
  import opened Text
  import opened Records
  import opened Rules

  /** Index of the first pattern of ps, in list order, that occurs in text;
      None when none occurs. */
  function FirstMatch(ps: seq<string>, text: string): (r: Option<nat>)
    ensures r.Some? ==> r.value < |ps| && Contains(text, ps[r.value])
    ensures r.Some? ==> forall j :: 0 <= j < r.value ==> !Contains(text, ps[j])
    ensures r.None? <==> forall j :: 0 <= j < |ps| ==> !Contains(text, ps[j])
  {
    if ps == [] then None
    else if Contains(text, ps[0]) then Some(0)
    else
      match FirstMatch(ps[1..], text)
      case None => None
      case Some(k) => Some(k + 1)
  }

  /** `len([p for p in patterns if p in text])` */
  function CountMatches(ps: seq<string>, text: string): (n: nat)
    ensures n <= |ps|
  {
    if ps == [] then 0
    else (if Contains(text, ps[0]) then 1 else 0) + CountMatches(ps[1..], text)
  }

  /** The count is positive exactly when some pattern occurs. */
  lemma {:induction false} CountMatchesPositive(ps: seq<string>, text: string)
    ensures CountMatches(ps, text) > 0 <==> exists i :: 0 <= i < |ps| && Contains(text, ps[i])
  {
    if ps != [] {
      CountMatchesPositive(ps[1..], text);
      if exists i :: 0 <= i < |ps| && Contains(text, ps[i]) {
        var i :| 0 <= i < |ps| && Contains(text, ps[i]);
        if i > 0 {
          assert ps[1..][i - 1] == ps[i];
        }
      }
    }
  }

  /** "More than one pattern matches" means two different patterns of the list occur. */
  lemma {:induction false} CountMatchesAtLeastTwo(ps: seq<string>, text: string)
    ensures CountMatches(ps, text) > 1 <==>
      exists i, j :: 0 <= i < j < |ps| && Contains(text, ps[i]) && Contains(text, ps[j])
  {
    if ps != [] {
      var tail := ps[1..];
      CountMatchesAtLeastTwo(tail, text);
      CountMatchesPositive(tail, text);
      if exists i, j :: 0 <= i < j < |ps| && Contains(text, ps[i]) && Contains(text, ps[j]) {
        var i, j :| 0 <= i < j < |ps| && Contains(text, ps[i]) && Contains(text, ps[j]);
        assert tail[j - 1] == ps[j];
        if i > 0 {
          assert tail[i - 1] == ps[i];
        }
      }
      if CountMatches(ps, text) > 1 {
        if Contains(text, ps[0]) {
          var j :| 0 <= j < |tail| && Contains(text, tail[j]);
          assert ps[j + 1] == tail[j];
        } else {
          var i, j :| 0 <= i < j < |tail| && Contains(text, tail[i]) && Contains(text, tail[j]);
          assert ps[i + 1] == tail[i] && ps[j + 1] == tail[j];
        }
      }
    }
  }

  /** The confidence of a match of `pattern`, one of `patterns`, in the
      upper-cased fragment text. */
  function MatchConfidence(text: string, pattern: string, patterns: seq<string>): (c: Confidence) {
    if Strip(text) == pattern then High
    else if Contains(text, pattern) && |Split(text)| <= 10 then High
    else if CountMatches(patterns, text) > 1 then High
    else Medium
  }

  /** The confidence rule: a match is high exactly when the stripped text is the
      pattern itself, or the text has at most ten words, or two patterns of the
      rule occur in it; otherwise it is medium, and never low. */
  lemma ConfidenceRule(text: string, pattern: string, patterns: seq<string>)
    requires Contains(text, pattern)
    ensures MatchConfidence(text, pattern, patterns) != Low
    ensures MatchConfidence(text, pattern, patterns) == High <==>
      || Strip(text) == pattern
      || |Split(text)| <= 10
      || exists i, j :: 0 <= i < j < |patterns| && Contains(text, patterns[i]) && Contains(text, patterns[j])
    ensures MatchConfidence(text, pattern, patterns) == Medium <==>
      && Strip(text) != pattern
      && |Split(text)| > 10
      && forall i, j :: 0 <= i < j < |patterns| ==> !(Contains(text, patterns[i]) && Contains(text, patterns[j]))
  {
    CountMatchesAtLeastTwo(patterns, text);
  }

  /** The record that fragment f contributes for rule r: None when no pattern of r
      occurs in the upper-cased text, else the match of the first such pattern,
      carrying the first 100 characters of the original text. */
  function Candidate(f: Fragment, r: Rule): (cand: Option<Section>) {
    var text := Upper(f.text);
    match FirstMatch(r.patterns, text)
    case None => None
    case Some(k) =>
      Some(Section(r.name, f.page, MatchConfidence(text, r.patterns[k], r.patterns),
                   Prefix(f.text, 100), r.priority, r.patterns[k]))
  }

  /** A fragment contributes a record for a rule exactly when one of the rule's
      patterns occurs in its upper-cased text. The record names the rule's label
      and priority and the fragment's page; its pattern is the first of the rule's
      patterns that occurs; its snippet is a prefix of the original text of at
      most 100 characters; its confidence follows the confidence rule. */
  lemma CandidateFacts(f: Fragment, r: Rule)
    ensures Candidate(f, r).Some? <==> exists i :: 0 <= i < |r.patterns| && Contains(Upper(f.text), r.patterns[i])
    ensures Candidate(f, r).Some? ==>
      var c := Candidate(f, r).value;
      && c.sectionType == r.name && c.priority == r.priority && c.page == f.page
      && c.textSnippet <= f.text && |c.textSnippet| <= 100
      && (|f.text| <= 100 ==> c.textSnippet == f.text)
      && c.confidence != Low
      && c.confidence == MatchConfidence(Upper(f.text), c.patternMatched, r.patterns)
      && exists k :: FirstMatch(r.patterns, Upper(f.text)) == Some(k) && r.patterns[k] == c.patternMatched
  {
    var text := Upper(f.text);
    if FirstMatch(r.patterns, text).Some? {
      var k := FirstMatch(r.patterns, text).value;
      ConfidenceRule(text, r.patterns[k], r.patterns);
    }
  }
}
