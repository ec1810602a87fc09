/** The order the analyzer returns sections in: Python's `sorted` with the key
    `(-priority, page, section_type)`, compared as a tuple. */
module Order {
  import opened Records

  /** Python's `<=` on strings: lexicographic by code point, a proper prefix
      coming first. */
  predicate LexLe(a: string, b: string)
    decreases |a|
  {
    a == [] || (b != [] && (a[0] < b[0] || (a[0] == b[0] && LexLe(a[1..], b[1..]))))
  }

  lemma {:induction false} LexLeTotal(a: string, b: string)
    ensures LexLe(a, b) || LexLe(b, a)
    decreases |a|
  {
    if a != [] && b != [] && a[0] == b[0] {
      LexLeTotal(a[1..], b[1..]);
    }
  }

  lemma {:induction false} LexLeAntisymmetric(a: string, b: string)
    requires LexLe(a, b) && LexLe(b, a)
    ensures a == b
    decreases |a|
  {
    if a != [] {
      LexLeAntisymmetric(a[1..], b[1..]);
      assert a == [a[0]] + a[1..] && b == [b[0]] + b[1..];
    }
  }

  lemma {:induction false} LexLeTransitive(a: string, b: string, c: string)
    requires LexLe(a, b) && LexLe(b, c)
    ensures LexLe(a, c)
    decreases |a|
  {
    if a != [] && a[0] == b[0] && b[0] == c[0] {
      LexLeTransitive(a[1..], b[1..], c[1..]);
    }
  }

  /** `key(x) <= key(y)` for the key `(-priority, page, section_type)`. */
  predicate KeyLe(x: Section, y: Section) {
    || x.priority > y.priority
    || (x.priority == y.priority && x.page < y.page)
    || (x.priority == y.priority && x.page == y.page && LexLe(x.sectionType, y.sectionType))
  }

  /** `key(x) < key(y)`. */
  predicate KeyLt(x: Section, y: Section) {
    KeyLe(x, y) && !(x.priority == y.priority && x.page == y.page && x.sectionType == y.sectionType)
  }

  lemma KeyLeTotal(x: Section, y: Section)
    ensures KeyLe(x, y) || KeyLe(y, x)
  {
    LexLeTotal(x.sectionType, y.sectionType);
  }

  lemma KeyLeTransitive(x: Section, y: Section, z: Section)
    requires KeyLe(x, y) && KeyLe(y, z)
    ensures KeyLe(x, z)
  {
    if x.priority == y.priority == z.priority && x.page == y.page == z.page {
      LexLeTransitive(x.sectionType, y.sectionType, z.sectionType);
    }
  }

  lemma KeyLtAsymmetric(x: Section, y: Section)
    requires KeyLt(x, y)
    ensures !KeyLe(y, x)
  {
    if KeyLe(y, x) && x.priority == y.priority && x.page == y.page {
      LexLeAntisymmetric(x.sectionType, y.sectionType);
    }
  }

  predicate Sorted(s: seq<Section>) {
    forall i, j :: 0 <= i < j < |s| ==> KeyLe(s[i], s[j])
  }

  predicate StrictlySorted(s: seq<Section>) {
    forall i, j :: 0 <= i < j < |s| ==> KeyLt(s[i], s[j])
  }

  /** No two records carry the same label. */
  predicate LabelsDistinct(s: seq<Section>) {
    forall i, j :: 0 <= i < j < |s| ==> s[i].sectionType != s[j].sectionType
  }

  /** Where x goes in s: after every record whose key is smaller than x's. */
  function InsertPos(x: Section, s: seq<Section>): (k: nat)
    ensures k <= |s|
    ensures forall j :: 0 <= j < k ==> !KeyLe(x, s[j])
    ensures k < |s| ==> KeyLe(x, s[k])
  {
    if s == [] || KeyLe(x, s[0]) then 0 else 1 + InsertPos(x, s[1..])
  }

  lemma InsertSorted(x: Section, s: seq<Section>, k: nat)
    requires Sorted(s) && k == InsertPos(x, s)
    ensures Sorted(s[..k] + [x] + s[k..])
  {
    var r := s[..k] + [x] + s[k..];
    forall i, j | 0 <= i < j < |r| ensures KeyLe(r[i], r[j]) {
      if j < k {
        assert r[i] == s[i] && r[j] == s[j];
      } else if j == k {
        assert r[i] == s[i] && r[j] == x;
        KeyLeTotal(x, s[i]);
      } else if i < k {
        assert r[i] == s[i] && r[j] == s[j - 1];
      } else if i == k {
        assert r[i] == x && r[j] == s[j - 1];
        if k < j - 1 {
          KeyLeTransitive(x, s[k], s[j - 1]);
        }
      } else {
        assert r[i] == s[i - 1] && r[j] == s[j - 1];
      }
    }
  }

  /** Places x in the sorted s, keeping it sorted. */
  function Insert(x: Section, s: seq<Section>): (r: seq<Section>)
    requires Sorted(s)
    ensures Sorted(r)
    ensures multiset(r) == multiset(s) + multiset{x}
  {
    var k := InsertPos(x, s);
    InsertSorted(x, s, k);
    assert s == s[..k] + s[k..];
    s[..k] + [x] + s[k..]
  }

  /** `sorted(...)`, as an insertion sort. */
  function SortSections(s: seq<Section>): (r: seq<Section>)
    ensures Sorted(r)
    ensures multiset(r) == multiset(s)
  {
    if s == [] then []
    else
      assert s == [s[0]] + s[1..];
      Insert(s[0], SortSections(s[1..]))
  }

  /** Two sequences with distinct labels, no label shared between them, join
      into one with distinct labels. */
  lemma DistinctConcat(a: seq<Section>, b: seq<Section>)
    requires LabelsDistinct(a) && LabelsDistinct(b)
    requires forall i, j :: 0 <= i < |a| && 0 <= j < |b| ==> a[i].sectionType != b[j].sectionType
    ensures LabelsDistinct(a + b)
  {
    var r := a + b;
    forall i, j | 0 <= i < j < |r| ensures r[i].sectionType != r[j].sectionType {
      if j < |a| {
        assert r[i] == a[i] && r[j] == a[j];
      } else if i < |a| {
        assert r[i] == a[i] && r[j] == b[j - |a|];
      } else {
        assert r[i] == b[i - |a|] && r[j] == b[j - |a|];
      }
    }
  }

  /** Placing a record with a new label anywhere keeps labels distinct. */
  lemma DistinctInsertAt(x: Section, t: seq<Section>, k: nat)
    requires k <= |t| && LabelsDistinct(t)
    requires forall i :: 0 <= i < |t| ==> t[i].sectionType != x.sectionType
    ensures LabelsDistinct(t[..k] + [x] + t[k..])
  {
    var p, q := t[..k], t[k..];
    assert LabelsDistinct(p) by {
      forall i, j | 0 <= i < j < |p| ensures p[i].sectionType != p[j].sectionType {
        assert p[i] == t[i] && p[j] == t[j];
      }
    }
    assert LabelsDistinct(q) by {
      forall i, j | 0 <= i < j < |q| ensures q[i].sectionType != q[j].sectionType {
        assert q[i] == t[k + i] && q[j] == t[k + j];
      }
    }
    DistinctConcat(p, [x]);
    var px := p + [x];
    forall i, j | 0 <= i < |px| && 0 <= j < |q| ensures px[i].sectionType != q[j].sectionType {
      assert q[j] == t[k + j];
      if i < |p| {
        assert px[i] == t[i];
      } else {
        assert px[i] == x;
      }
    }
    DistinctConcat(px, q);
  }

  lemma InsertKeepsLabelsDistinct(x: Section, t: seq<Section>)
    requires Sorted(t) && LabelsDistinct(t)
    requires forall i :: 0 <= i < |t| ==> t[i].sectionType != x.sectionType
    ensures LabelsDistinct(Insert(x, t))
  {
    DistinctInsertAt(x, t, InsertPos(x, t));
  }

  /** Sorting keeps labels distinct. */
  lemma {:induction false} SortKeepsLabelsDistinct(s: seq<Section>)
    requires LabelsDistinct(s)
    ensures LabelsDistinct(SortSections(s))
  {
    if s != [] {
      var t := SortSections(s[1..]);
      SortKeepsLabelsDistinct(s[1..]);
      forall i | 0 <= i < |t| ensures t[i].sectionType != s[0].sectionType {
        assert t[i] in multiset(s[1..]);
        var j :| 0 <= j < |s[1..]| && s[1..][j] == t[i];
        assert s[j + 1] == t[i];
      }
      InsertKeepsLabelsDistinct(s[0], t);
    }
  }

  /** Removing the head of a sequence removes one copy of it from the multiset. */
  lemma MultisetTail(s: seq<Section>)
    requires s != []
    ensures multiset(s[1..]) == multiset(s) - multiset{s[0]}
  {
    assert s == [s[0]] + s[1..];
  }

  /** Two strictly sorted arrangements of the same records start with the same one. */
  lemma StrictHeadsEqual(s: seq<Section>, t: seq<Section>)
    requires StrictlySorted(s) && StrictlySorted(t) && multiset(s) == multiset(t) && s != []
    ensures t != [] && s[0] == t[0]
  {
    assert s[0] in multiset(t);
    var i :| 0 <= i < |t| && t[i] == s[0];
    assert t[0] in multiset(s);
    var j :| 0 <= j < |s| && s[j] == t[0];
    if i != 0 && j != 0 {
      assert KeyLt(t[0], s[0]) && KeyLt(s[0], t[0]);
      KeyLtAsymmetric(t[0], s[0]);
      assert false;
    }
  }

  /** There is only one strictly sorted arrangement of a collection of records,
      so any stable sort, Python's included, returns the same sequence. */
  lemma {:induction false} StrictlySortedUnique(s: seq<Section>, t: seq<Section>)
    requires StrictlySorted(s) && StrictlySorted(t)
    requires multiset(s) == multiset(t)
    ensures s == t
    decreases |s|
  {
    if s == [] {
      assert |t| == |multiset(t)| == 0;
    } else {
      StrictHeadsEqual(s, t);
      MultisetTail(s);
      MultisetTail(t);
      StrictlySortedUnique(s[1..], t[1..]);
      assert s == [s[0]] + s[1..] && t == [t[0]] + t[1..];
    }
  }
}
