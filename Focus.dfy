/** Focus cycling: the Tab handler moves the focus to the next of four
    panels, wrapping around, and shows the text cursor except on the table
    list. */
module Focus {

  /** The panels in focus order. */
  const Views: seq<string> := ["db", "tables", "output", "where"]

  /** The index the focus moves to. Go's `%` truncates toward zero, which
      agrees with Dafny's `%` because the dividend is never negative here. */
  function Next(i: nat): (r: nat)
    ensures r < |Views|
    ensures i < |Views| ==> r != i
  {
    (i + 1) % |Views|
  }

  /** Whether the text cursor is shown once panel i has the focus. */
  function CursorShown(i: nat): (shown: bool)
    ensures i < |Views| ==> (shown <==> Views[i] != "tables")
  {
    i == 0 || i == 2 || i == 3
  }

  /** The focus index after n presses of Tab. */
  function Steps(i: nat, n: nat): nat {
    if n == 0 then i else Next(Steps(i, n - 1))
  }

  /** One press moves to a different panel, and stays among the four. */
  lemma NextMoves(i: nat)
    requires i < |Views|
    ensures Next(i) < |Views| && Next(i) != i
    ensures Next(i) == if i == |Views| - 1 then 0 else i + 1
  {
  }

  /** n presses advance the focus by n places, cyclically. */
  lemma {:induction false} StepsShift(i: nat, n: nat)
    requires i < |Views|
    ensures Steps(i, n) == (i + n) % |Views|
  {
    if n > 0 {
      StepsShift(i, n - 1);
    }
  }

  /** The focus comes back to where it started exactly after a multiple of
      four presses. */
  lemma CycleReturns(i: nat, n: nat)
    requires i < |Views|
    ensures Steps(i, n) == i <==> n % |Views| == 0
  {
    StepsShift(i, n);
  }

  /** Every panel is reached from every panel in fewer than four presses. */
  lemma EveryViewReached(i: nat, j: nat)
    requires i < |Views| && j < |Views|
    ensures (j - i) % |Views| < |Views| && Steps(i, (j - i) % |Views|) == j
  {
    StepsShift(i, (j - i) % |Views|);
  }

  /** The cursor is hidden on exactly one panel: the table list. */
  lemma CursorHiddenOnlyOnTables(i: nat)
    requires i < |Views|
    ensures CursorShown(i) <==> Views[i] != "tables"
  {
  }

  /** Tab only ever focuses the four panels above: the "limit" and "offset"
      fields are never reached, whatever the number of presses. */
  lemma TabNeverReachesFields(i: nat, n: nat)
    requires i < |Views|
    ensures Steps(i, n) < |Views|
    ensures Views[Steps(i, n)] != "limit" && Views[Steps(i, n)] != "offset"
  {
  }
}
