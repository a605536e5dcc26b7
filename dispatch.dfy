/** The command that brings the chosen window back from the scratchpad. */
module Dispatch {
  import opened Types
  import opened Decimal

  /** `[id=<id>] <action>`: one command addressed to window `id`. */
  function Criterion(id: u64, action: string): string {
    "[id=" + NatToString(id) + "] " + action
  }

  /** `format!("[id={0}] scratchpad show; [id={0}] floating disable", id)`:
      show the window from the scratchpad, then dock it as a tiled window. */
  function RevealCommand(id: u64): string {
    Criterion(id, "scratchpad show") + "; " + Criterion(id, "floating disable")
  }

  /** A single command `[id=<n>] <action>` read back as its window criterion
      and its action. */
  function ParseCriterion(c: string): Option<(nat, string)> {
    if |c| >= 4 && c[..4] == "[id=" then
      var rest := c[4..];
      var k := IndexOf(rest, ']');
      if 0 < k && k + 1 < |rest| && AllDigits(rest[..k]) && rest[k + 1] == ' '
      then Some((ParseNat(rest[..k]), rest[k + 2..]))
      else None
    else None
  }

  lemma ParseCriterionOf(id: u64, action: string)
    ensures ParseCriterion(Criterion(id, action)) == Some((id as nat, action))
  {
    var d := NatToString(id);
    var c := Criterion(id, action);
    assert c[..4] == "[id=";
    var rest := c[4..];
    assert rest == d + [']'] + (" " + action);
    IndexOfAfterDigits(d, ']', " " + action);
    assert rest[..|d|] == d;
    assert rest[|d| + 2..] == action;
    ParseNatToString(id);
  }

  /** Two commands joined by `; ` split apart again at the first `;`. */
  lemma SplitAtSemicolon(c1: string, c2: string)
    requires forall j :: 0 <= j < |c1| ==> c1[j] != ';'
    ensures
      var cmd := c1 + "; " + c2;
      && IndexOf(cmd, ';') == |c1| && cmd[..|c1|] == c1 && cmd[|c1| + 1] == ' ' && cmd[|c1| + 2..] == c2
  {
    IndexOfAppend(c1, "; " + c2, ';');
    assert c1 + "; " + c2 == c1 + ("; " + c2);
  }

  /** Split at its first `;`, the reveal command is a `scratchpad show` and a
      `floating disable`, both addressed to window `id` and to nothing else. */
  lemma RevealCommandTargets(id: u64)
    ensures
      var cmd := RevealCommand(id);
      var k := IndexOf(cmd, ';');
      && k + 1 < |cmd| && cmd[k + 1] == ' '
      && ParseCriterion(cmd[..k]) == Some((id as nat, "scratchpad show"))
      && ParseCriterion(cmd[k + 2..]) == Some((id as nat, "floating disable"))
  {
    var d := NatToString(id);
    var show := Criterion(id, "scratchpad show");
    assert show == "[id=" + d + "] " + "scratchpad show";
    assert forall j :: 0 <= j < |show| ==> show[j] != ';';
    SplitAtSemicolon(show, Criterion(id, "floating disable"));
    ParseCriterionOf(id, "scratchpad show");
    ParseCriterionOf(id, "floating disable");
  }

  /** Different windows get different commands. */
  lemma RevealCommandInjective(a: u64, b: u64)
    requires RevealCommand(a) == RevealCommand(b)
    ensures a == b
  {
    RevealCommandTargets(a);
    RevealCommandTargets(b);
  }
}
