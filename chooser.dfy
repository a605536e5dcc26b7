/** The exchange with the chooser: the text written to its input, the
    trimming of its answer, and the lookup of that answer among the labels. */
module Chooser {
  import opened Types
  import opened Selector

  // ---------------------------------------------------------------------
  // Chooser input

  function Labels(es: seq<Entry>): (r: seq<string>)
    ensures |r| == |es| && forall i :: 0 <= i < |es| ==> r[i] == es[i].text
  {
    seq(|es|, i requires 0 <= i < |es| => es[i].text)
  }

  /** Each label followed by a newline, in order. */
  function Lines(labels: seq<string>): (r: string)
    ensures r == [] <==> labels == []
  {
    if labels == [] then [] else labels[0] + "\n" + Lines(labels[1..])
  }

  lemma {:induction false} LinesAppend(a: seq<string>, l: string)
    ensures Lines(a + [l]) == Lines(a) + l + "\n"
  {
    if a == [] {
      assert [l][1..] == [];
    } else {
      assert (a + [l])[1..] == a[1..] + [l];
      LinesAppend(a[1..], l);
    }
  }

  /** The fold that appends `format!("{}\n", label)` for every entry to an
      initially empty buffer. */
  method ChooserInput(es: seq<Entry>) returns (buf: string)
    ensures buf == Lines(Labels(es))
  {
    buf := [];
    for i := 0 to |es|
      invariant buf == Lines(Labels(es[..i]))
    {
      assert Labels(es[..i + 1]) == Labels(es[..i]) + [es[i].text];
      LinesAppend(Labels(es[..i]), es[i].text);
      buf := buf + es[i].text + "\n";
    }
    assert es[..|es|] == es;
  }

  /** Newline-terminated lines read back from a text; a last line without a
      terminator still counts as a line. */
  function SplitLines(s: string): seq<string>
    decreases |s|
  {
    if s == [] then []
    else
      var k := Decimal.IndexOf(s, '\n');
      if k == |s| then [s] else [s[..k]] + SplitLines(s[k + 1..])
  }

  /** A chooser reading its input line by line sees exactly the labels, in
      order, as long as no label contains a newline (a window title can). */
  lemma {:induction false} SplitLinesOfLines(labels: seq<string>)
    requires forall i :: 0 <= i < |labels| ==> '\n' !in labels[i]
    ensures SplitLines(Lines(labels)) == labels
  {
    if labels != [] {
      LinesHead(labels);
      SplitLinesOfLines(labels[1..]);
      assert labels == [labels[0]] + labels[1..];
    }
  }

  /** The first line of the chooser input is the first label. */
  lemma LinesHead(labels: seq<string>)
    requires labels != [] && '\n' !in labels[0]
    ensures var s := Lines(labels); var l := labels[0];
      && Decimal.IndexOf(s, '\n') == |l| < |s|
      && s[..|l|] == l && s[|l| + 1..] == Lines(labels[1..])
  {
    var l := labels[0];
    var rest := "\n" + Lines(labels[1..]);
    assert Lines(labels) == l + rest;
    Decimal.IndexOfAppend(l, rest, '\n');
    assert (l + rest)[..|l|] == l;
    assert (l + rest)[|l| + 1..] == Lines(labels[1..]);
  }

  // ---------------------------------------------------------------------
  // Trimming the answer

  /** Rust's `char::is_whitespace`: the Unicode White_Space property. */
  predicate IsWhitespace(c: char) {
    || c == ' ' || '\t' <= c <= '\r'
    || c == '\U{85}' || c == '\U{A0}' || c == '\U{1680}'
    || '\U{2000}' <= c <= '\U{200A}'
    || c == '\U{2028}' || c == '\U{2029}' || c == '\U{202F}' || c == '\U{205F}' || c == '\U{3000}'
  }

  /** Drops the leading whitespace. */
  function TrimStart(s: string): (r: string)
    ensures |r| <= |s| && r == s[|s| - |r|..]
    ensures forall k :: 0 <= k < |s| - |r| ==> IsWhitespace(s[k])
    ensures r != [] ==> !IsWhitespace(r[0])
  {
    if s != [] && IsWhitespace(s[0]) then TrimStart(s[1..]) else s
  }

  /** Drops the trailing whitespace. */
  function TrimEnd(s: string): (r: string)
    ensures |r| <= |s| && r == s[..|r|]
    ensures forall k :: |r| <= k < |s| ==> IsWhitespace(s[k])
    ensures r != [] ==> !IsWhitespace(r[|r| - 1])
  {
    if s != [] && IsWhitespace(s[|s| - 1]) then TrimEnd(s[..|s| - 1]) else s
  }

  /** `r` is `s[a..b]`, and only whitespace lies outside it. */
  predicate CutAt(s: string, r: string, a: nat, b: nat) {
    && a <= b <= |s| && r == s[a..b]
    && (forall k :: 0 <= k < a ==> IsWhitespace(s[k]))
    && (forall k :: b <= k < |s| ==> IsWhitespace(s[k]))
  }

  /** `str::trim`: the answer with whitespace dropped at both ends. */
  function Trim(s: string): (r: string)
    ensures exists a: nat, b: nat :: CutAt(s, r, a, b)
    ensures r != [] ==> !IsWhitespace(r[0]) && !IsWhitespace(r[|r| - 1])
    ensures r == [] <==> forall k :: 0 <= k < |s| ==> IsWhitespace(s[k])
  {
    var t := TrimStart(s);
    var r := TrimEnd(t);
    assert CutAt(s, r, |s| - |t|, |s| - |t| + |r|);
    assert r == [] ==> t == [];
    assert r != [] ==> r[0] == t[0];
    r
  }

  /** A text whose ends are not whitespace is left as it is. */
  lemma TrimKeepsTrimmed(s: string)
    requires s != [] && !IsWhitespace(s[0]) && !IsWhitespace(s[|s| - 1])
    ensures Trim(s) == s
  {
  }

  /** Whitespace after the text does not change the trimmed text. */
  lemma {:induction false} TrimEndIgnoresTrailing(s: string, w: string)
    requires forall k :: 0 <= k < |w| ==> IsWhitespace(w[k])
    ensures TrimEnd(s + w) == TrimEnd(s)
    decreases |w|
  {
    if w != [] {
      var s' := s + w;
      assert s'[..|s'| - 1] == s + w[..|w| - 1];
      TrimEndIgnoresTrailing(s, w[..|w| - 1]);
    } else {
      assert s + w == s;
    }
  }

  /** TrimEnd goes no further left than a character that is not whitespace. */
  lemma {:induction false} TrimEndStopsAt(p: string, t: string)
    requires p != [] && !IsWhitespace(p[|p| - 1])
    ensures TrimEnd(p + t) == p + TrimEnd(t)
    decreases |t|
  {
    if t == [] {
      assert p + t == p;
    } else if IsWhitespace(t[|t| - 1]) {
      assert (p + t)[..|p + t| - 1] == p + t[..|t| - 1];
      TrimEndStopsAt(p, t[..|t| - 1]);
    } else {
      assert TrimEnd(t) == t;
    }
  }

  // ---------------------------------------------------------------------
  // Looking the answer up

  /** `es[i]` carries label `choice`, and no earlier entry does. */
  predicate FirstLabelled(es: seq<Entry>, choice: string, i: nat) {
    i < |es| && es[i].text == choice && forall j :: 0 <= j < i ==> es[j].text != choice
  }

  /** `find_map(|(id, name)| if *name == choice { Some(id) } else { None })`:
      the id of the first entry whose label is exactly `choice`. */
  function Resolve(es: seq<Entry>, choice: string): (r: Option<u64>)
    ensures r.None? <==> forall i :: 0 <= i < |es| ==> es[i].text != choice
    ensures r.Some? ==> exists i: nat :: FirstLabelled(es, choice, i) && es[i].id == r.value
  {
    if es == [] then None
    else if es[0].text == choice then
      assert FirstLabelled(es, choice, 0);
      Some(es[0].id)
    else
      var r := Resolve(es[1..], choice);
      assert r.Some? ==> exists i: nat :: FirstLabelled(es, choice, i) && es[i].id == r.value by {
        if r.Some? {
          var i: nat :| FirstLabelled(es[1..], choice, i) && es[1..][i].id == r.value;
          forall j | 0 <= j < i + 1 ensures es[j].text != choice {
            if j > 0 { assert es[j] == es[1..][j - 1]; }
          }
          assert es[i + 1] == es[1..][i];
          assert FirstLabelled(es, choice, i + 1);
        }
      }
      r
  }

  /** With distinct labels, every offered label resolves to its own entry's id. */
  lemma ResolveOwnLabel(es: seq<Entry>, k: nat)
    requires DistinctLabels(es) && k < |es|
    ensures Resolve(es, es[k].text) == Some(es[k].id)
  {
    var r := Resolve(es, es[k].text);
    var i: nat :| FirstLabelled(es, es[k].text, i) && es[i].id == r.value;
    assert i == k;
  }
}
