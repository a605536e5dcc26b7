/** The scratchpad selection: sort the scratchpad's leaves by name, keep the
    window containers, and number them into labelled entries. */
module Selector {
  import opened Types
  import opened Decimal
  import opened Tree
  import opened NameOrder

  /** The name of the manager's scratchpad node. */
  const ScratchName: string := "__i3_scratch"
  /** The node type of an actual window container. */
  const WindowKind: string := "con"
  /** The title shown for a window that has no name. */
  const NoTitle: string := "<No title>"

  /** One line offered to the chooser, with the window it stands for. */
  datatype Entry = Entry(id: u64, text: string)

  // ---------------------------------------------------------------------
  // Sorting

  predicate SortedByName(s: seq<Leaf>) {
    forall i, j :: 0 <= i < j < |s| ==> NameLe(s[i].name, s[j].name)
  }

  /** `sort_unstable_by(|a, b| Option::cmp(&a.name, &b.name))` on the leaf
      vector: afterwards the names are non-decreasing and the vector holds the
      same leaves. Nothing is promised about the order of leaves with equal
      names. */
  method SortByName(a: array<Leaf>)
    modifies a
    ensures SortedByName(a[..])
    ensures multiset(a[..]) == multiset(old(a[..]))
  {
    for i := 0 to a.Length
      invariant SortedByName(a[..i])
      invariant multiset(a[..]) == multiset(old(a[..]))
    {
      InsertLast(a, i);
    }
    assert a[..a.Length] == a[..];
  }

  /** One step of the insertion sort: moves `a[i]` left past every larger
      name, so that the sorted prefix grows by one. */
  method InsertLast(a: array<Leaf>, i: nat)
    requires i < a.Length && SortedByName(a[..i])
    modifies a
    ensures SortedByName(a[..i + 1])
    ensures multiset(a[..]) == multiset(old(a[..]))
  {
    var j := i;
    while j > 0 && !NameLe(a[j - 1].name, a[j].name)
      invariant 0 <= j <= i
      invariant multiset(a[..]) == multiset(old(a[..]))
      invariant forall k, l :: 0 <= k < l <= i && k != j && l != j ==> NameLe(a[k].name, a[l].name)
      invariant forall l :: j < l <= i ==> NameLe(a[j].name, a[l].name)
    {
      NameLeTotalOrder(a[j - 1].name, a[j].name, a[j].name);
      Swap(a, j - 1, j);
      j := j - 1;
    }
    forall k, l | 0 <= k < l <= i
      ensures NameLe(a[k].name, a[l].name)
    {
      if l == j && k < j - 1 {
        NameLeTotalOrder(a[k].name, a[j - 1].name, a[j].name);
      }
    }
  }

  method Swap(a: array<Leaf>, i: nat, j: nat)
    requires i < j < a.Length
    modifies a
    ensures a[i] == old(a[j]) && a[j] == old(a[i])
    ensures forall k :: 0 <= k < a.Length && k != i && k != j ==> a[k] == old(a[k])
    ensures multiset(a[..]) == multiset(old(a[..]))
  {
    a[i], a[j] := a[j], a[i];
  }

  /** Two orderings of the same leaves that are both sorted by name are the
      same ordering when no two leaves share a name: the outcome of the
      unstable sort is then determined. */
  lemma {:induction false} SortedPermutationUnique(a: seq<Leaf>, b: seq<Leaf>)
    requires SortedByName(a) && SortedByName(b) && multiset(a) == multiset(b)
    requires forall i, j :: 0 <= i < j < |a| ==> a[i].name != a[j].name
    ensures a == b
  {
    if a == [] {
      assert |b| == 0 by { assert |multiset(b)| == 0; }
    } else {
      SortedHeadsEqual(a, b);
      SameTails(a, b);
      SortedPermutationUnique(a[1..], b[1..]);
      assert a == [a[0]] + a[1..] && b == [b[0]] + b[1..];
    }
  }

  lemma SameTails(a: seq<Leaf>, b: seq<Leaf>)
    requires a != [] && b != [] && a[0] == b[0] && multiset(a) == multiset(b)
    requires SortedByName(a) && SortedByName(b)
    requires forall i, j :: 0 <= i < j < |a| ==> a[i].name != a[j].name
    ensures multiset(a[1..]) == multiset(b[1..])
    ensures SortedByName(a[1..]) && SortedByName(b[1..])
    ensures forall i, j :: 0 <= i < j < |a[1..]| ==> a[1..][i].name != a[1..][j].name
  {
    assert multiset(a[1..]) == multiset(b[1..]) by {
      assert a == [a[0]] + a[1..] && b == [b[0]] + b[1..];
      assert multiset(a[1..]) == multiset(a) - multiset{a[0]};
      assert multiset(b[1..]) == multiset(b) - multiset{b[0]};
    }
    SortedTail(a);
    SortedTail(b);
    forall i, j | 0 <= i < j < |a[1..]| ensures a[1..][i].name != a[1..][j].name {
      assert a[1..][i] == a[i + 1] && a[1..][j] == a[j + 1];
    }
  }

  lemma SortedTail(a: seq<Leaf>)
    requires a != [] && SortedByName(a)
    ensures SortedByName(a[1..])
  {
    forall i, j | 0 <= i < j < |a[1..]| ensures NameLe(a[1..][i].name, a[1..][j].name) {
      assert a[1..][i] == a[i + 1] && a[1..][j] == a[j + 1];
    }
  }

  /** The first leaves of two such orderings coincide. */
  lemma SortedHeadsEqual(a: seq<Leaf>, b: seq<Leaf>)
    requires a != [] && SortedByName(a) && SortedByName(b) && multiset(a) == multiset(b)
    requires forall i, j :: 0 <= i < j < |a| ==> a[i].name != a[j].name
    ensures b != [] && a[0] == b[0]
  {
    assert a[0] in multiset(b);
    var k :| 0 <= k < |b| && b[k] == a[0];
    assert b[0] in multiset(a);
    var m :| 0 <= m < |a| && a[m] == b[0];
    NameLeTotalOrder(a[0].name, b[0].name, b[0].name);
  }

  // ---------------------------------------------------------------------
  // Keeping the window containers

  /** `filter(|l| l.kind == "con")`. */
  function Windows(leaves: seq<Leaf>): (r: seq<Leaf>)
    ensures forall l :: l in r <==> l in leaves && l.kind == WindowKind
  {
    if leaves == [] then []
    else (if leaves[0].kind == WindowKind then [leaves[0]] else []) + Windows(leaves[1..])
  }

  /** The filter keeps the relative order of what it keeps. */
  lemma {:induction false} WindowsAppend(a: seq<Leaf>, b: seq<Leaf>)
    ensures Windows(a + b) == Windows(a) + Windows(b)
  {
    if a == [] {
      assert a + b == b;
    } else {
      assert (a + b)[1..] == a[1..] + b;
      WindowsAppend(a[1..], b);
    }
  }

  /** The filter keeps every window container as often as it occurs and
      drops everything else. */
  lemma {:induction false} WindowsMultiplicity(s: seq<Leaf>, l: Leaf)
    ensures multiset(Windows(s))[l] == if l.kind == WindowKind then multiset(s)[l] else 0
  {
    if s != [] {
      WindowsMultiplicity(s[1..], l);
      assert s == [s[0]] + s[1..];
    }
  }

  /** Sorting first and filtering afterwards keeps the same windows as
      filtering the unsorted leaves. */
  lemma WindowsOfPermutation(a: seq<Leaf>, b: seq<Leaf>)
    requires multiset(a) == multiset(b)
    ensures multiset(Windows(a)) == multiset(Windows(b))
  {
    forall l | true ensures multiset(Windows(a))[l] == multiset(Windows(b))[l] {
      WindowsMultiplicity(a, l);
      WindowsMultiplicity(b, l);
    }
  }

  // ---------------------------------------------------------------------
  // Labels

  function Title(name: Option<string>): string {
    match name
    case Some(s) => s
    case None => NoTitle
  }

  /** `format!("{}:{}", n, title)`. */
  function Label(n: nat, name: Option<string>): string {
    NatToString(n) + ":" + Title(name)
  }

  /** The number before the first `:` of a label, if it is one. */
  function LabelNumber(text: string): Option<nat> {
    var k := IndexOf(text, ':');
    if 0 < k < |text| && AllDigits(text[..k]) then Some(ParseNat(text[..k])) else None
  }

  /** The text after the first `:` of a label. */
  function LabelTitle(text: string): string {
    var k := IndexOf(text, ':');
    if k < |text| then text[k + 1..] else []
  }

  /** The number in front of the first `:` is read back, whatever follows. */
  lemma LabelNumberOf(n: nat, t: string)
    ensures LabelNumber(NatToString(n) + ":" + t) == Some(n)
    ensures LabelTitle(NatToString(n) + ":" + t) == t
  {
    var d := NatToString(n);
    IndexOfAfterDigits(d, ':', t);
    assert d + ":" + t == d + [':'] + t;
    assert (d + ":" + t)[..|d|] == d;
    ParseNatToString(n);
  }

  /** A label gives back the number and the title it was made from. */
  lemma LabelRoundTrip(n: nat, name: Option<string>)
    ensures LabelNumber(Label(n, name)) == Some(n)
    ensures LabelTitle(Label(n, name)) == Title(name)
  {
    LabelNumberOf(n, Title(name));
  }

  /** A number, a colon and a text determine both the number and the text. */
  lemma NumberedTextInjective(m: nat, s: string, n: nat, t: string)
    requires NatToString(m) + ":" + s == NatToString(n) + ":" + t
    ensures m == n && s == t
  {
    LabelNumberOf(m, s);
    LabelNumberOf(n, t);
  }

  /** Labels made from different numbers differ, whatever the titles. */
  lemma LabelsOfDistinctNumbersDiffer(m: nat, n: nat, a: Option<string>, b: Option<string>)
    requires m != n
    ensures Label(m, a) != Label(n, b)
  {
    LabelRoundTrip(m, a);
    LabelRoundTrip(n, b);
  }

  // ---------------------------------------------------------------------
  // Numbering

  /** Entry `i` of `es` carries window `ws[i]`'s id and the label numbered
      `first + i` with that window's title. */
  predicate Numbered(ws: seq<Leaf>, es: seq<Entry>, first: nat) {
    |es| == |ws| && forall i :: 0 <= i < |ws| ==>
      ws[i].id == Some(es[i].id) && es[i].text == Label(first + i, ws[i].name)
  }

  lemma NumberedCons(ws: seq<Leaf>, e: Entry, es: seq<Entry>, first: nat)
    requires ws != [] && Numbered(ws[1..], es, first + 1)
    requires ws[0].id == Some(e.id) && e.text == Label(first, ws[0].name)
    ensures Numbered(ws, [e] + es, first)
  {
    var es' := [e] + es;
    forall i | 0 < i < |ws|
      ensures ws[i].id == Some(es'[i].id) && es'[i].text == Label(first + i, ws[i].name)
    {
      assert ws[i] == ws[1..][i - 1] && es'[i] == es[i - 1];
    }
  }

  /** `enumerate().map(|(i, leaf)| (leaf.id.unwrap(), label))` collected:
      entry `i` carries the window's id and the label numbered `first + i`
      with the window's title; a window without an id is fatal. */
  function Number(ws: seq<Leaf>, first: nat): (r: Result<seq<Entry>>)
    ensures r.Ok? <==> forall i :: 0 <= i < |ws| ==> ws[i].id.Some?
    ensures r.Err? ==> r.error == MissingWindowId
    ensures r.Ok? ==> Numbered(ws, r.value, first)
    decreases |ws|
  {
    if ws == [] then Ok([])
    else if ws[0].id.None? then Err(MissingWindowId)
    else
      match Number(ws[1..], first + 1)
      case Err(e) =>
        assert exists i :: 1 <= i < |ws| && ws[i].id.None? by {
          var j :| 0 <= j < |ws[1..]| && ws[1..][j].id.None?;
          assert ws[j + 1] == ws[1..][j];
        }
        Err(e)
      case Ok(rest) =>
        var e := Entry(ws[0].id.value, Label(first, ws[0].name));
        NumberedCons(ws, e, rest, first);
        assert forall i :: 1 <= i < |ws| ==> ws[i] == ws[1..][i - 1];
        Ok([e] + rest)
  }

  /** The selection: the window containers of the sorted leaves, numbered from 1. */
  function Entries(sorted: seq<Leaf>): (r: Result<seq<Entry>>)
    ensures r.Ok? <==> forall l :: l in sorted && l.kind == WindowKind ==> l.id.Some?
    ensures r.Ok? ==> Numbered(Windows(sorted), r.value, 1)
  {
    var ws := Windows(sorted);
    assert (forall i :: 0 <= i < |ws| ==> ws[i].id.Some?) <==> (forall l :: l in ws ==> l.id.Some?);
    Number(ws, 1)
  }

  predicate DistinctLabels(es: seq<Entry>) {
    forall i, j :: 0 <= i < j < |es| ==> es[i].text != es[j].text
  }

  /** No two entries of a selection share a label, even when windows share a title. */
  lemma EntriesLabelsDistinct(sorted: seq<Leaf>)
    requires Entries(sorted).Ok?
    ensures DistinctLabels(Entries(sorted).value)
  {
    NumberedDistinct(Windows(sorted), Entries(sorted).value, 1);
  }

  lemma NumberedDistinct(ws: seq<Leaf>, es: seq<Entry>, first: nat)
    requires Numbered(ws, es, first)
    ensures DistinctLabels(es)
  {
    forall i, j | 0 <= i < j < |es| ensures es[i].text != es[j].text {
      LabelsOfDistinctNumbersDiffer(first + i, first + j, ws[i].name, ws[j].name);
    }
  }

  /** Entry `i` of a selection stands for window container `l`. */
  predicate StandsFor(es: seq<Entry>, i: nat, l: Leaf) {
    i < |es| && Some(es[i].id) == l.id && LabelTitle(es[i].text) == Title(l.name)
  }

  /** Every window container of the sorted leaves appears in the selection,
      with its own id and title, and every entry comes from one of them. */
  lemma EntriesCoverWindows(sorted: seq<Leaf>)
    requires Entries(sorted).Ok?
    ensures forall l :: l in sorted && l.kind == WindowKind ==>
      exists i: nat :: StandsFor(Entries(sorted).value, i, l)
    ensures forall e :: e in Entries(sorted).value ==>
      exists l :: l in sorted && l.kind == WindowKind && Some(e.id) == l.id && LabelTitle(e.text) == Title(l.name)
  {
    var ws := Windows(sorted);
    var es := Entries(sorted).value;
    assert Numbered(ws, es, 1);
    forall l | l in sorted && l.kind == WindowKind
      ensures exists i: nat :: StandsFor(es, i, l)
    {
      var i :| 0 <= i < |ws| && ws[i] == l;
      LabelRoundTrip(i + 1, l.name);
      assert StandsFor(es, i, l);
    }
    forall e | e in es
      ensures exists l :: l in sorted && l.kind == WindowKind && Some(e.id) == l.id && LabelTitle(e.text) == Title(l.name)
    {
      var i :| 0 <= i < |es| && es[i] == e;
      LabelRoundTrip(i + 1, ws[i].name);
      assert ws[i] in ws;
    }
  }

  /** Numbering a window in front of already numbered windows. */
  lemma NumberCons(w: Leaf, ws: seq<Leaf>, first: nat, rest: seq<Entry>)
    requires w.id.Some? && Number(ws, first + 1) == Ok(rest)
    ensures Number([w] + ws, first) == Ok([Entry(w.id.value, Label(first, w.name))] + rest)
  {
    assert ([w] + ws)[1..] == ws;
    assert ([w] + ws)[0] == w;
  }

  lemma ExampleLabels()
    ensures Label(1, None) == "1:<No title>"
    ensures Label(2, Some("a")) == "2:a"
    ensures Label(3, Some("b")) == "3:b"
  {
    assert NatToString(1) == "1" && NatToString(2) == "2" && NatToString(3) == "3";
  }

  /** Sorted, an untitled window and windows titled `a` and `b` are offered
      as the untitled one numbered 1, then `a` as 2 and `b` as 3. */
  lemma SelectionExample()
    ensures
      var sorted := [Leaf(Some(1), "con", None), Leaf(Some(3), "con", Some("a")), Leaf(Some(2), "con", Some("b"))];
      && SortedByName(sorted)
      && Entries(sorted) == Ok([Entry(1, "1:<No title>"), Entry(3, "2:a"), Entry(2, "3:b")])
  {
    var u, a, b := Leaf(Some(1), "con", None), Leaf(Some(3), "con", Some("a")), Leaf(Some(2), "con", Some("b"));
    ExampleSorted(u, a, b);
    ExampleWindows(u, a, b);
    ExampleNumbering(u, a, b);
  }

  /** The same windows found in the order untitled, `b`, `a`: whatever order
      the sort puts them in, they are offered as `1:<No title>`, `2:a`, `3:b`. */
  lemma DocumentOrderExample(sorted: seq<Leaf>)
    requires
      var u, b, a := Leaf(Some(1), "con", None), Leaf(Some(2), "con", Some("b")), Leaf(Some(3), "con", Some("a"));
      SortedByName(sorted) && multiset(sorted) == multiset([u, b, a])
    ensures Entries(sorted) == Ok([Entry(1, "1:<No title>"), Entry(3, "2:a"), Entry(2, "3:b")])
  {
    var u, a, b := Leaf(Some(1), "con", None), Leaf(Some(3), "con", Some("a")), Leaf(Some(2), "con", Some("b"));
    SelectionExample();
    ExampleSortIsDetermined(u, a, b, sorted);
  }

  /** The only sorted ordering of the three example windows. */
  lemma ExampleSortIsDetermined(u: Leaf, a: Leaf, b: Leaf, sorted: seq<Leaf>)
    requires u.name == None && a.name == Some("a") && b.name == Some("b")
    requires SortedByName(sorted) && multiset(sorted) == multiset([u, b, a])
    ensures sorted == [u, a, b]
  {
    ExampleSorted(u, a, b);
    assert multiset([u, b, a]) == multiset([u, a, b]);
    var s := [u, a, b];
    assert "a" != "b" by { assert "a"[0] != "b"[0]; }
    assert forall i, j :: 0 <= i < j < |s| ==> s[i].name != s[j].name;
    SortedPermutationUnique(s, sorted);
  }

  lemma ExampleSorted(u: Leaf, a: Leaf, b: Leaf)
    requires u.name == None && a.name == Some("a") && b.name == Some("b")
    ensures SortedByName([u, a, b])
  {
    assert StrLe("a", "b");
  }

  lemma ExampleWindows(u: Leaf, a: Leaf, b: Leaf)
    requires u.kind == a.kind == b.kind == WindowKind
    ensures Windows([u, a, b]) == [u, a, b]
  {
    assert Windows([b]) == [b];
    assert Windows([a, b]) == [a, b] by { assert [a, b][1..] == [b]; }
    assert [u, a, b][1..] == [a, b];
  }

  lemma ExampleNumbering(u: Leaf, a: Leaf, b: Leaf)
    requires u == Leaf(Some(1), "con", None) && a == Leaf(Some(3), "con", Some("a")) && b == Leaf(Some(2), "con", Some("b"))
    ensures Number([u, a, b], 1) == Ok([Entry(1, "1:<No title>"), Entry(3, "2:a"), Entry(2, "3:b")])
  {
    ExampleLabels();
    assert Number([], 4) == Ok([]);
    NumberCons(b, [], 3, []);
    assert [b] + [] == [b];
    assert [Entry(2, Label(3, b.name))] + [] == [Entry(2, "3:b")];
    NumberCons(a, [b], 2, [Entry(2, "3:b")]);
    assert [a] + [b] == [a, b];
    assert [Entry(3, Label(2, a.name))] + [Entry(2, "3:b")] == [Entry(3, "2:a"), Entry(2, "3:b")];
    NumberCons(u, [a, b], 1, [Entry(3, "2:a"), Entry(2, "3:b")]);
    assert [u] + [a, b] == [u, a, b];
    assert [Entry(1, Label(1, u.name))] + [Entry(3, "2:a"), Entry(2, "3:b")] ==
      [Entry(1, "1:<No title>"), Entry(3, "2:a"), Entry(2, "3:b")];
  }
}
