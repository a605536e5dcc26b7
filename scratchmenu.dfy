/** The picker's run: select the scratchpad windows, offer them to the
    chooser, and reveal the one the user picks. */
module Scratchmenu {
  import opened Types
  import opened Decimal
  import opened Tree
  import opened Selector
  import opened Chooser
  import opened Dispatch

  // ---------------------------------------------------------------------
  // The chooser's answer

  /** What the chooser's answer leads to: nothing but whitespace cancels,
      otherwise the trimmed answer must be one of the labels exactly. */
  function Decide(es: seq<Entry>, answer: string): (o: Outcome)
    ensures o == Cancelled <==> Trim(answer) == []
    ensures o.Failed? <==> Trim(answer) != [] && forall i :: 0 <= i < |es| ==> es[i].text != Trim(answer)
    ensures o.Failed? ==> o.error == UnmatchedSelection
    ensures o.Dispatched? ==>
      exists i: nat :: FirstLabelled(es, Trim(answer), i) && o.command == RevealCommand(es[i].id)
  {
    var choice := Trim(answer);
    if choice == [] then Cancelled
    else
      match Resolve(es, choice)
      case None => Failed(UnmatchedSelection)
      case Some(id) => Dispatched(RevealCommand(id))
  }

  /** Trimming the label followed by the chooser's whitespace: the number and
      the colon stay, and the title loses its trailing whitespace. */
  lemma TrimLabel(n: nat, name: Option<string>, w: string)
    requires forall k :: 0 <= k < |w| ==> IsWhitespace(w[k])
    ensures Trim(Label(n, name) + w) == NatToString(n) + ":" + TrimEnd(Title(name))
  {
    var d := NatToString(n);
    var s := Label(n, name) + w;
    assert s[0] == d[0];
    assert TrimStart(s) == s;
    TrimEndIgnoresTrailing(Label(n, name), w);
    TrimEndStopsAt(d + ":", Title(name));
  }

  /** A chooser answering with an offered label and a line break reveals that
      label's window, provided the window's title does not end in whitespace. */
  lemma DecideOfferedLine(sorted: seq<Leaf>, k: nat)
    requires Entries(sorted).Ok? && k < |Entries(sorted).value|
    requires var t := Title(Windows(sorted)[k].name); t == [] || !IsWhitespace(t[|t| - 1])
    ensures
      var es := Entries(sorted).value;
      Decide(es, es[k].text + "\n") == Dispatched(RevealCommand(es[k].id))
  {
    var ws := Windows(sorted);
    var es := Entries(sorted).value;
    assert Numbered(ws, es, 1);
    TrimLabel(k + 1, ws[k].name, "\n");
    assert TrimEnd(Title(ws[k].name)) == Title(ws[k].name);
    assert Trim(es[k].text + "\n") == es[k].text;
    EntriesLabelsDistinct(sorted);
    ResolveOwnLabel(es, k);
  }

  /** As written, a window whose title ends in whitespace cannot be picked: the
      chooser echoes its label, trimming cuts the title's trailing whitespace,
      and the exact lookup then finds no label, which is fatal. */
  lemma TrailingWhitespaceTitleUnmatched(sorted: seq<Leaf>, k: nat)
    requires Entries(sorted).Ok? && k < |Entries(sorted).value|
    requires var t := Title(Windows(sorted)[k].name); t != [] && IsWhitespace(t[|t| - 1])
    ensures
      var es := Entries(sorted).value;
      Decide(es, es[k].text + "\n") == Failed(UnmatchedSelection)
  {
    var ws := Windows(sorted);
    var es := Entries(sorted).value;
    assert Numbered(ws, es, 1);
    assert es[k].text == Label(k + 1, ws[k].name);
    TrimLabel(k + 1, ws[k].name, "\n");
    NoLabelIsTrimmedTitle(ws, es, k);
  }

  /** No label of a selection is label `k` with its title's trailing
      whitespace cut, when there is whitespace to cut. */
  lemma NoLabelIsTrimmedTitle(ws: seq<Leaf>, es: seq<Entry>, k: nat)
    requires Numbered(ws, es, 1) && k < |es|
    requires var t := Title(ws[k].name); t != [] && IsWhitespace(t[|t| - 1])
    ensures forall i :: 0 <= i < |es| ==> es[i].text != NatToString(k + 1) + ":" + TrimEnd(Title(ws[k].name))
  {
    var t := Title(ws[k].name);
    var t' := TrimEnd(t);
    assert |t'| < |t|;
    forall i | 0 <= i < |es| ensures es[i].text != NatToString(k + 1) + ":" + t' {
      assert es[i].text == NatToString(i + 1) + ":" + Title(ws[i].name);
      if es[i].text == NatToString(k + 1) + ":" + t' {
        NumberedTextInjective(i + 1, Title(ws[i].name), k + 1, t');
        assert false;
      }
    }
  }

  /** The smallest instance: one window titled `vim ` (a trailing blank). */
  lemma TrailingWhitespaceExample()
    ensures Entries([Leaf(Some(7), "con", Some("vim "))]) == Ok([Entry(7, "1:vim ")])
    ensures Decide([Entry(7, "1:vim ")], "1:vim \n") == Failed(UnmatchedSelection)
  {
    var l := Leaf(Some(7), "con", Some("vim "));
    SingleWindowEntries(l);
    var t := Title(Windows([l])[0].name);
    assert t == "vim " && IsWhitespace(t[|t| - 1]);
    TrailingWhitespaceTitleUnmatched([l], 0);
    var es := Entries([l]).value;
    assert es[0].text + "\n" == "1:vim \n";
  }

  lemma SingleWindowEntries(l: Leaf)
    requires l == Leaf(Some(7), "con", Some("vim "))
    ensures Windows([l]) == [l]
    ensures Entries([l]) == Ok([Entry(7, "1:vim ")])
  {
    assert Windows([l]) == [l];
    assert Number([], 2) == Ok([]);
    NumberCons(l, [], 1, []);
    assert [l] + [] == [l];
    assert NatToString(1) == "1";
    assert Label(1, l.name) == "1:vim ";
    assert [Entry(7, Label(1, l.name))] + [] == [Entry(7, "1:vim ")];
  }

  /** The lookup the trimming evidently intends: the trimmed answer is
      compared with the trimmed labels. */
  function TrimLabels(es: seq<Entry>): (r: seq<Entry>)
    ensures |r| == |es| && forall i :: 0 <= i < |es| ==> r[i] == Entry(es[i].id, Trim(es[i].text))
  {
    seq(|es|, i requires 0 <= i < |es| => Entry(es[i].id, Trim(es[i].text)))
  }

  function DecideTrimmed(es: seq<Entry>, answer: string): (o: Outcome)
    ensures o == Cancelled <==> Trim(answer) == []
    ensures o.Failed? <==> Trim(answer) != [] && forall i :: 0 <= i < |es| ==> Trim(es[i].text) != Trim(answer)
    ensures o.Failed? ==> o.error == UnmatchedSelection
    ensures o.Dispatched? ==>
      exists i: nat :: FirstLabelled(TrimLabels(es), Trim(answer), i) && o.command == RevealCommand(es[i].id)
  {
    var ts := TrimLabels(es);
    var o := Decide(ts, answer);
    assert o.Dispatched? ==> exists i: nat :: FirstLabelled(ts, Trim(answer), i) && o.command == RevealCommand(es[i].id) by {
      if o.Dispatched? {
        var i: nat :| FirstLabelled(ts, Trim(answer), i) && o.command == RevealCommand(ts[i].id);
        assert ts[i].id == es[i].id;
      }
    }
    o
  }

  /** With the trimmed comparison, a chooser answering with any offered label
      and any trailing whitespace reveals that label's window, whatever its
      title. */
  lemma DecideTrimmedOfferedLine(sorted: seq<Leaf>, k: nat, w: string)
    requires Entries(sorted).Ok? && k < |Entries(sorted).value|
    requires forall j :: 0 <= j < |w| ==> IsWhitespace(w[j])
    ensures
      var es := Entries(sorted).value;
      DecideTrimmed(es, es[k].text + w) == Dispatched(RevealCommand(es[k].id))
  {
    var ws := Windows(sorted);
    var es := Entries(sorted).value;
    var ts := TrimLabels(es);
    TrimmedLabels(sorted);
    assert es[k].text == Label(k + 1, ws[k].name);
    TrimLabel(k + 1, ws[k].name, w);
    assert Trim(es[k].text + w) == ts[k].text;
    ResolveOwnLabel(ts, k);
  }

  /** Trimmed, the labels of a selection keep their numbers and stay distinct. */
  lemma TrimmedLabels(sorted: seq<Leaf>)
    requires Entries(sorted).Ok?
    ensures
      var ws := Windows(sorted);
      var ts := TrimLabels(Entries(sorted).value);
      && |ts| == |ws|
      && (forall i :: 0 <= i < |ts| ==> ts[i].text == NatToString(i + 1) + ":" + TrimEnd(Title(ws[i].name)))
      && DistinctLabels(ts)
  {
    var ws := Windows(sorted);
    var es := Entries(sorted).value;
    var ts := TrimLabels(es);
    assert Numbered(ws, es, 1);
    forall i | 0 <= i < |ts| ensures ts[i].text == NatToString(i + 1) + ":" + TrimEnd(Title(ws[i].name)) {
      TrimmedLabelAt(ws, es, i);
    }
    PrefixedDistinct(ts, seq(|ts|, i requires 0 <= i < |ts| => TrimEnd(Title(ws[i].name))));
  }

  /** Labels whose number is their position plus one are distinct, whatever
      follows the colon. */
  lemma PrefixedDistinct(ts: seq<Entry>, titles: seq<string>)
    requires |titles| == |ts|
    requires forall i :: 0 <= i < |ts| ==> ts[i].text == NatToString(i + 1) + ":" + titles[i]
    ensures DistinctLabels(ts)
  {
    forall i, j | 0 <= i < j < |ts| ensures ts[i].text != ts[j].text {
      if ts[i].text == ts[j].text {
        NumberedTextInjective(i + 1, titles[i], j + 1, titles[j]);
        assert false;
      }
    }
  }

  lemma TrimmedLabelAt(ws: seq<Leaf>, es: seq<Entry>, i: nat)
    requires Numbered(ws, es, 1) && i < |es|
    ensures Trim(es[i].text) == NatToString(i + 1) + ":" + TrimEnd(Title(ws[i].name))
  {
    assert es[i].text == Label(i + 1, ws[i].name);
    TrimLabel(i + 1, ws[i].name, []);
    assert es[i].text + [] == es[i].text;
  }

  // ---------------------------------------------------------------------
  // The whole run

  /** What follows the sort: number the windows, offer the labels, act on the
      answer of `chooser` to that input. */
  function Finish(sorted: seq<Leaf>, chooser: string -> string): Outcome {
    match Entries(sorted)
    case Err(e) => Failed(e)
    case Ok(es) => Decide(es, chooser(Lines(Labels(es))))
  }

  /** One run on an already decoded tree, with the chooser modelled as a
      function from the text it is given to the text it answers. */
  method Run(tree: I3Tree, chooser: string -> string) returns (outcome: Outcome)
    ensures FindName(FromTree(tree), ScratchName).None? ==> outcome == Failed(ScratchpadNotFound)
    ensures FindName(FromTree(tree), ScratchName).Some? ==>
      exists sorted :: SortedByName(sorted)
        && multiset(sorted) == multiset(Leaves(FindName(FromTree(tree), ScratchName).value))
        && outcome == Finish(sorted, chooser)
  {
    var root := FromTree(tree);
    var scratch := FindName(root, ScratchName);
    if scratch.None? {
      return Failed(ScratchpadNotFound);
    }
    var leaves := IntoLeaves(scratch.value);
    var windows := new Leaf[|leaves|](i requires 0 <= i < |leaves| => leaves[i]);
    assert windows[..] == leaves;
    SortByName(windows);
    var sorted := windows[..];
    var entries := Entries(sorted);
    if entries.Err? {
      return Failed(entries.error);
    }
    var input := ChooserInput(entries.value);
    outcome := Decide(entries.value, chooser(input));
  }
}
