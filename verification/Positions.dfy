/** srow, scol and sindex of pyratemp: positions in a string as numbers or as rows and columns. */
module Positions {

  function Min(a: int, b: int): int {
    if a < b then a else b
  }

  /** The end of s[0:max(0, i)]. */
  function Clip(s: string, i: int): (e: nat)
    ensures e <= |s|
  {
    if i < 0 then 0 else Min(i, |s|)
  }

  /** s.count("\n", 0, e). */
  function Count(s: string, e: nat): nat
    requires e <= |s|
  {
    if e == 0 then 0 else Count(s, e - 1) + if s[e - 1] == '\n' then 1 else 0
  }

  /** s.rfind("\n", 0, e). */
  function RFind(s: string, e: nat): (r: int)
    requires e <= |s|
    ensures -1 <= r < e
    ensures r >= 0 ==> s[r] == '\n'
    ensures forall k :: r < k < e ==> s[k] != '\n'
  {
    if e == 0 then -1 else if s[e - 1] == '\n' then e - 1 else RFind(s, e - 1)
  }

  /** s.find("\n", n). */
  function Find(s: string, n: nat): (r: int)
    requires n <= |s|
    ensures r == -1 || (n <= r < |s| && s[r] == '\n')
    ensures forall k :: n <= k < (if r == -1 then |s| else r) ==> s[k] != '\n'
    decreases |s| - n
  {
    if n == |s| then -1 else if s[n] == '\n' then n else Find(s, n + 1)
  }

  function Srow(s: string, i: int): int {
    Count(s, Clip(s, i)) + 1
  }

  function Scol(s: string, i: int): int {
    i - RFind(s, Clip(s, i))
  }

  /** Where the loop of sindex is after k turns; past the last newline it starts over at 0. */
  function LineStart(s: string, k: nat): (n: nat)
    ensures n <= |s|
  {
    if k == 0 then 0 else Find(s, LineStart(s, k - 1)) + 1
  }

  /** range(row - 1) is empty for rows below 2. */
  function Turns(row: int): nat {
    if row < 1 then 0 else row - 1
  }

  method Sindex(s: string, row: int, col: int) returns (i: int)
    ensures i == LineStart(s, Turns(row)) + col - 1
    ensures row < 2 ==> i == col - 1
  {
    var n := 0;
    for k := 0 to Turns(row)
      invariant 0 <= n <= |s| && n == LineStart(s, k)
    {
      n := Find(s, n) + 1;
    }
    return n + col - 1;
  }

  // ----- there and back

  lemma {:induction false} FindFirst(s: string, n: nat, p: nat)
    requires n <= p < |s| && s[p] == '\n' && forall k :: n <= k < p ==> s[k] != '\n'
    ensures Find(s, n) == p
    decreases p - n
  {
    if n < p { FindFirst(s, n + 1, p); }
  }

  lemma NextLine(s: string, k: nat, n: nat, p: nat)
    requires LineStart(s, k) == n <= p < |s| && s[p] == '\n' && forall j :: n <= j < p ==> s[j] != '\n'
    ensures LineStart(s, k + 1) == p + 1
  {
    FindFirst(s, n, p);
  }

  /** One position further: still on line k, or past its newline. */
  lemma LineOfNext(s: string, e: nat, k: nat, r: int)
    requires e < |s| && k == Count(s, e) && r == RFind(s, e) && LineStart(s, k) == r + 1
    ensures LineStart(s, Count(s, e + 1)) == RFind(s, e + 1) + 1
  {
    if s[e] == '\n' {
      NextLine(s, k, r + 1, e);
    }
  }

  /** The line that position e is on starts after as many turns as there are newlines before it. */
  lemma {:induction false} LineOf(s: string, e: nat)
    requires e <= |s|
    ensures LineStart(s, Count(s, e)) == RFind(s, e) + 1
  {
    if e > 0 {
      LineOf(s, e - 1);
      LineOfNext(s, e - 1, Count(s, e - 1), RFind(s, e - 1));
    }
  }

  /** sindex undoes srow and scol, for positions before, in and after the string. */
  lemma RowColRoundTrip(s: string, i: int)
    ensures Srow(s, i) >= 1
    ensures LineStart(s, Turns(Srow(s, i))) + Scol(s, i) - 1 == i
  {
    LineOf(s, Clip(s, i));
  }

  // ----- back and there

  lemma {:induction false} CountBetween(s: string, p: nat, e: nat)
    requires p <= e <= |s|
    ensures Count(s, p) <= Count(s, e)
    ensures Count(s, p) == Count(s, e) <==> forall k :: p <= k < e ==> s[k] != '\n'
    decreases e
  {
    if p < e { CountBetween(s, p, e - 1); }
  }

  /** Row k + 1 exists: it starts after newline number k. */
  lemma {:induction false} StartOfRow(s: string, k: nat)
    requires k <= Count(s, |s|)
    ensures Count(s, LineStart(s, k)) == k && (k > 0 ==> LineStart(s, k) > 0 && s[LineStart(s, k) - 1] == '\n')
  {
    if k > 0 {
      StartOfRow(s, k - 1);
      var p := LineStart(s, k - 1);
      var q := Find(s, p);
      CountBetween(s, p, |s|);
      CountBetween(s, p, q);
    }
  }

  /** A row that exists and a column on it, or past the end of the last row, or before the first. */
  predicate OnRow(s: string, row: int, col: int) {
    && 1 <= row <= Count(s, |s|) + 1
    && (row == 1 || col >= 1)
    && forall k :: LineStart(s, row - 1) <= k < Min(|s|, LineStart(s, row - 1) + col - 1) ==> s[k] != '\n'
  }

  lemma LastNewlineIff(s: string, p: nat, e: nat)
    requires p <= |s| && e <= |s| && (p == 0 || s[p - 1] == '\n')
    ensures RFind(s, e) == p - 1 <==> p <= e && forall k :: p <= k < e ==> s[k] != '\n'
  {
    assert p <= e && (forall k :: p <= k < e ==> s[k] != '\n') ==> RFind(s, e) <= p - 1;
  }

  /** Before e there are k newlines, the last of them just before p. */
  predicate LineAt(s: string, e: nat, k: nat, p: nat)
    requires e <= |s|
  {
    Count(s, e) == k && RFind(s, e) == p - 1
  }

  /** The row that starts at p after k newlines goes on up to e. */
  lemma LineAtIff(s: string, e: nat, k: nat, p: nat)
    requires e <= |s| && p <= |s| && Count(s, p) == k && (p == 0 || s[p - 1] == '\n')
    ensures LineAt(s, e, k, p) <==> p <= e && forall j :: p <= j < e ==> s[j] != '\n'
  {
    LastNewlineIff(s, p, e);
    if p <= e { CountBetween(s, p, e); }
  }

  lemma OnExistingRow(s: string, row: nat, col: int, p: nat)
    requires 1 <= row <= Count(s, |s|) + 1 && p == LineStart(s, row - 1)
    ensures var i := p + col - 1; Srow(s, i) == row && Scol(s, i) == col <==> OnRow(s, row, col)
  {
    var e := Clip(s, p + col - 1);
    StartOfRow(s, row - 1);
    LineAtIff(s, e, row - 1, p);
    assert p == 0 <==> row == 1;
    assert LineAt(s, e, row - 1, p) <==> Srow(s, p + col - 1) == row && Scol(s, p + col - 1) == col;
  }

  /** srow and scol undo sindex exactly for the rows and columns that exist. */
  lemma IndexRoundTripIff(s: string, row: int, col: int)
    ensures var i := LineStart(s, Turns(row)) + col - 1;
            Srow(s, i) == row && Scol(s, i) == col <==> OnRow(s, row, col)
  {
    var p := LineStart(s, Turns(row));
    CountBetween(s, Clip(s, p + col - 1), |s|);
    if 1 <= row <= Count(s, |s|) + 1 { OnExistingRow(s, row, col, p); }
  }
}
