/**
 * The backtracking search of Board.solve as a function of the board's
 * values: the first empty cell in row-major order gets the candidates
 * 1..9 in ascending order, each one that passes is_valid is placed and
 * the search recurses; a failed trial is undone by resetting the cell to 0.
 */
module Solver {
  import opened Wrappers
  import opened Arena

  /** What solve returns, with the board it leaves behind. */
  datatype Outcome = Outcome(solved: bool, board: seq<int>)

  /**
   * solve().  A failed search hands back the board it was given; the
   * undo in TryCandidates depends on it, and so does termination.
   */
  function Search(g: seq<int>): (r: Outcome)
    requires |g| == 81
    ensures |r.board| == 81
    ensures !r.solved ==> r.board == g
    decreases EmptyCount(g), 1
  {
    match FirstEmpty(g)
    case None => Outcome(true, g)
    case Some(i) => TryCandidates(g, i, 1)
  }

  /** The candidate loop of solve for the empty cell i, from candidate n on. */
  function TryCandidates(g: seq<int>, i: nat, n: nat): (r: Outcome)
    requires |g| == 81 && i < 81 && IsEmpty(g[i]) && 1 <= n <= 10
    ensures |r.board| == 81
    ensures !r.solved ==> r.board == g
    decreases EmptyCount(g), 0, 10 - n
  {
    if n == 10 then Outcome(false, g)
    else if !IsValid(g, n, i) then TryCandidates(g, i, n + 1)
    else
      EmptyCountFill(g, i, n);
      var trial := Search(g[i := n]);
      if trial.solved then trial
      else
        assert trial.board[i := 0] == g;
        TryCandidates(trial.board[i := 0], i, n + 1)
  }

  /** On a board with no empty cell, solve succeeds at once and changes nothing. */
  lemma SearchOnComplete(g: seq<int>)
    requires |g| == 81 && Complete(g)
    ensures Search(g) == Outcome(true, g)
  {
    FirstEmptyIsFirst(g);
  }

  /** One round of the candidate loop: skip n, succeed with it, or undo it and go on. */
  lemma TryCandidatesStep(g: seq<int>, i: nat, n: nat)
    requires |g| == 81 && i < 81 && IsEmpty(g[i]) && 1 <= n < 10
    ensures !IsValid(g, n, i) ==> TryCandidates(g, i, n) == TryCandidates(g, i, n + 1)
    ensures IsValid(g, n, i) && Search(g[i := n]).solved ==> TryCandidates(g, i, n) == Search(g[i := n])
    ensures IsValid(g, n, i) && !Search(g[i := n]).solved ==>
              TryCandidates(g, i, n) == TryCandidates(g, i, n + 1) && Search(g[i := n]).board[i := 0] == g
  {
    if IsValid(g, n, i) {
      EmptyCountFill(g, i, n);
      var trial := Search(g[i := n]);
      if !trial.solved {
        assert trial.board == g[i := n];
        assert g[i := n][i := 0] == g;
      }
    }
  }

  /** s keeps every nonzero cell of g. */
  predicate KeepsGivens(g: seq<int>, s: seq<int>)
    requires |g| == 81 && |s| == 81
  {
    forall j :: 0 <= j < 81 && !IsEmpty(g[j]) ==> s[j] == g[j]
  }

  /** Every cell empty in g holds a digit 1..9 in s. */
  predicate PlacesDigits(g: seq<int>, s: seq<int>)
    requires |g| == 81 && |s| == 81
  {
    forall j :: 0 <= j < 81 && IsEmpty(g[j]) ==> 1 <= s[j] <= 9
  }

  /**
   * Every value placed in a cell p passed is_valid on the board as it was
   * when p was filled: the final values before p in row-major order, and
   * the initial ones from p on.
   */
  predicate PlacedValid(g: seq<int>, s: seq<int>)
    requires |g| == 81 && |s| == 81
  {
    forall p :: 0 <= p < 81 && IsEmpty(g[p]) ==> IsValid(s[..p] + g[p..], s[p], p)
  }

  /** What a successful search promises about the board s it leaves, started from g. */
  predicate SolvedFrom(g: seq<int>, s: seq<int>)
    requires |g| == 81 && |s| == 81
  {
    Complete(s) && KeepsGivens(g, s) && PlacesDigits(g, s) && PlacedValid(g, s)
  }

  /** A complete, conflict-free grid of digits that keeps the givens of g. */
  predicate IsSolutionOf(s: seq<int>, g: seq<int>)
  {
    |s| == 81 && |g| == 81 && ValidValues(s) && Complete(s) && NoConflicts(s) && KeepsGivens(g, s)
  }

  /** A successful search fills the board, keeps the givens and places only checked digits. */
  lemma {:induction false} SearchSound(g: seq<int>)
    requires |g| == 81 && Search(g).solved
    ensures SolvedFrom(g, Search(g).board)
    decreases EmptyCount(g), 1
  {
    FirstEmptyIsFirst(g);
    match FirstEmpty(g)
    case None =>
    case Some(i) => TryCandidatesSound(g, i, 1);
  }

  lemma {:induction false} TryCandidatesSound(g: seq<int>, i: nat, n: nat)
    requires |g| == 81 && i < 81 && IsEmpty(g[i]) && 1 <= n <= 10
    requires forall j :: 0 <= j < i ==> !IsEmpty(g[j])
    requires TryCandidates(g, i, n).solved
    ensures SolvedFrom(g, TryCandidates(g, i, n).board)
    decreases EmptyCount(g), 0, 10 - n
  {
    if n < 10 {
      TryCandidatesStep(g, i, n);
      if IsValid(g, n, i) && Search(g[i := n]).solved {
        PlacementSound(g, i, n);
      } else {
        TryCandidatesSound(g, i, n + 1);
      }
    }
  }

  /** Placing n at the first empty cell i and then succeeding keeps all four promises for g. */
  lemma {:induction false} PlacementSound(g: seq<int>, i: nat, n: nat)
    requires |g| == 81 && i < 81 && IsEmpty(g[i]) && 1 <= n < 10 && IsValid(g, n, i)
    requires forall j :: 0 <= j < i ==> !IsEmpty(g[j])
    requires Search(g[i := n]).solved
    ensures SolvedFrom(g, Search(g[i := n]).board)
    decreases EmptyCount(g), 0, 9 - n
  {
    EmptyCountFill(g, i, n);
    var g' := g[i := n];
    SearchSound(g');
    var s := Search(g').board;
    assert s[i] == n;
    assert KeepsGivens(g, s) by {
      forall j | 0 <= j < 81 && !IsEmpty(g[j]) ensures s[j] == g[j] {
        assert g'[j] == g[j];
      }
    }
    assert PlacesDigits(g, s) by {
      forall j | 0 <= j < 81 && IsEmpty(g[j]) ensures 1 <= s[j] <= 9 {
        assert j != i ==> IsEmpty(g'[j]);
      }
    }
    PlacedValidStep(g, i, n, s);
  }

  /** The first placement passed is_valid on g itself; the later ones are those of the recursive search. */
  lemma PlacedValidStep(g: seq<int>, i: nat, n: nat, s: seq<int>)
    requires |g| == 81 && |s| == 81 && i < 81 && IsEmpty(g[i]) && IsValid(g, n, i)
    requires forall j :: 0 <= j < i ==> !IsEmpty(g[j])
    requires s[i] == n && KeepsGivens(g, s) && PlacedValid(g[i := n], s)
    ensures PlacedValid(g, s)
  {
    forall p | 0 <= p < 81 && IsEmpty(g[p]) ensures IsValid(s[..p] + g[p..], s[p], p) {
      if p == i {
        assert s[..i] + g[i..] == g;
      } else {
        assert g[i := n][p..] == g[p..];
      }
    }
  }

  /** A solution that keeps the givens is a candidate is_valid lets through at each empty cell. */
  lemma SolutionValueValid(g: seq<int>, s: seq<int>, i: nat)
    requires IsSolutionOf(s, g) && i < 81 && IsEmpty(g[i])
    ensures 1 <= s[i] <= 9 && IsValid(g, s[i], i)
  {
    IsValidScan(g, s[i], i);
  }

  /** Backtracking misses no solution: if one keeps the givens, the search succeeds. */
  lemma {:induction false} SearchComplete(g: seq<int>, s: seq<int>)
    requires |g| == 81 && IsSolutionOf(s, g)
    ensures Search(g).solved
    decreases EmptyCount(g), 1
  {
    match FirstEmpty(g)
    case None =>
    case Some(i) =>
      SolutionValueValid(g, s, i);
      TryCandidatesComplete(g, i, 1, s);
  }

  lemma {:induction false} TryCandidatesComplete(g: seq<int>, i: nat, n: nat, s: seq<int>)
    requires |g| == 81 && i < 81 && IsEmpty(g[i]) && IsSolutionOf(s, g)
    requires 1 <= n <= s[i]
    ensures TryCandidates(g, i, n).solved
    decreases EmptyCount(g), 0, 10 - n
  {
    SolutionValueValid(g, s, i);
    TryCandidatesStep(g, i, n);
    if n == s[i] {
      assert KeepsGivens(g[i := n], s);
      EmptyCountFill(g, i, n);
      SearchComplete(g[i := n], s);
    } else if !(IsValid(g, n, i) && Search(g[i := n]).solved) {
      TryCandidatesComplete(g, i, n + 1, s);
    }
  }

  /** With conflict-free givens, a successful search leaves a solution. */
  lemma SolvedIsSolution(g: seq<int>)
    requires |g| == 81 && ValidValues(g) && NoConflicts(g) && Search(g).solved
    ensures IsSolutionOf(Search(g).board, g)
  {
    var s := Search(g).board;
    SearchSound(g);
    forall p, q | 0 <= p < 81 && 0 <= q < 81 && p != q && Related(p, q) && s[p] != 0
      ensures s[p] != s[q]
    {
      DistinctPair(g, s, p, q);
    }
  }

  /** Two related cells of a solved board differ, whichever of them were given or placed. */
  lemma DistinctPair(g: seq<int>, s: seq<int>, p: nat, q: nat)
    requires |g| == 81 && |s| == 81 && NoConflicts(g) && SolvedFrom(g, s)
    requires p < 81 && q < 81 && p != q && Related(p, q) && s[p] != 0
    ensures s[p] != s[q]
  {
    if IsEmpty(g[p]) && (q < p || !IsEmpty(g[q])) {
      IsValidScan(s[..p] + g[p..], s[p], p);
      assert (s[..p] + g[p..])[q] == s[q];
    } else if IsEmpty(g[q]) {
      IsValidScan(s[..q] + g[q..], s[q], q);
      assert (s[..q] + g[q..])[p] == s[p];
    }
  }

  /** For conflict-free givens, solve succeeds exactly when the puzzle has a solution. */
  lemma SearchSolvedIff(g: seq<int>)
    requires |g| == 81 && ValidValues(g) && NoConflicts(g)
    ensures Search(g).solved <==> exists s :: IsSolutionOf(s, g)
  {
    if Search(g).solved {
      SolvedIsSolution(g);
    } else if s :| IsSolutionOf(s, g) {
      SearchComplete(g, s);
    }
  }
}
