/**
 The win rule of the game: `GetWinMessage` in Intra/Program.cs, which decides
 a round from the user's move index, the computer's move index and the number
 of moves. The function is modelled as written, with C#'s 32-bit `int`
 arithmetic; beside it stands the cyclic rule the game is meant to follow
 (each move beats the next (N-1)/2 moves around the circle), and lemmas say
 where the two agree and where they do not.
 */
module WinRule {

  /** C#'s `int`. */
  newtype int32 = x: int | -0x8000_0000 <= x < 0x8000_0000

  /** Unchecked C# addition: the mathematical sum, wrapped into 32 bits. */
  function Wrap32(x: int): (r: int32)
    ensures -0x8000_0000 <= x < 0x8000_0000 ==> r as int == x
    ensures (r as int - x) % 0x1_0000_0000 == 0
  {
    ((x + 0x8000_0000) % 0x1_0000_0000 - 0x8000_0000) as int32
  }

  /** C#'s `n / 2`, which truncates toward zero (Dafny's `/` is Euclidean). */
  function Half(n: int32): (r: int32)
    ensures n >= 0 ==> 0 <= r <= n && n as int - 1 <= 2 * r as int <= n as int
    ensures n < 0 ==> n <= r <= 0 && n as int <= 2 * r as int <= n as int + 1
  {
    (if n >= 0 then n as int / 2 else -((-(n as int)) / 2)) as int32
  }

  /** The three messages a round can end with. */
  datatype Outcome = Draw | ComputerWin | UserWin

  /** The line `GetWinMessage` returns; the three lines differ, so the
      printed line tells the outcome. */
  function Message(o: Outcome): (m: string)
    ensures m == "Draw" <==> o == Draw
    ensures m == "Computer win" <==> o == ComputerWin
    ensures m == "You win" <==> o == UserWin
  {
    match o
    case Draw => "Draw"
    case ComputerWin => "Computer win"
    case UserWin => "You win"
  }

  /** `GetWinMessage` as written: when the computer's index is below the
      user's, it adds the USER's index to it (not the number of moves), then
      compares with `userMove + amountOfMoves / 2`. */
  function WinMessage(userMove: int32, computerMove: int32, amountOfMoves: int32): (r: Outcome)
    ensures r == Draw <==> userMove == computerMove
  {
    if userMove == computerMove then Draw
    else
      var shifted := if computerMove < userMove
                     then Wrap32(computerMove as int + userMove as int)
                     else computerMove;
      if shifted <= Wrap32(userMove as int + Half(amountOfMoves) as int)
      then ComputerWin
      else UserWin
  }

  /** The line `GetWinMessage` returns: "Draw" on equal indices, and
      otherwise the line of the as-written verdict. */
  function GetWinMessage(userMove: int32, computerMove: int32, amountOfMoves: int32): (m: string)
    ensures m == "Draw" <==> userMove == computerMove
    ensures m == "Computer win" <==> WinMessage(userMove, computerMove, amountOfMoves) == ComputerWin
    ensures m == "You win" <==> WinMessage(userMove, computerMove, amountOfMoves) == UserWin
  {
    Message(WinMessage(userMove, computerMove, amountOfMoves))
  }

  /** Two move indices of a game with `n` moves, small enough that no sum in
      `WinMessage` wraps around (a command line never holds 2^30 arguments). */
  predicate InGame(u: int32, c: int32, n: int32)
  {
    0 <= u < n && 0 <= c < n && n < 0x4000_0000
  }

  /** The cyclic rule the game intends: the computer wins when its move lies
      within the next (n-1)/2 positions after the user's, counting around the
      circle of `n` moves. */
  function CyclicOutcome(u: int, c: int, n: int): (r: Outcome)
    requires n > 0
    ensures r == Draw <==> u == c
  {
    if u == c then Draw
    else if (c - u) % n <= (n - 1) / 2 then ComputerWin
    else UserWin
  }

  /** The cyclic distance from `u` to `c`: `c - u`, or `c - u + n` once
      `c` is below `u`. */
  lemma CyclicDistance(u: int, c: int, n: int)
    requires 0 <= u < n && 0 <= c < n
    ensures (c - u) % n == if c < u then c - u + n else c - u
  {
    var d := c - u;
    var r := if c < u then d + n else d;
    assert 0 <= r < n && d == n * (if c < u then -1 else 0) + r;
  }

  /** For an odd number of moves, the code's `n / 2` is the rule's (n-1)/2. */
  lemma OddHalf(n: int32)
    requires n >= 0 && n % 2 == 1
    ensures Half(n) as int == (n as int - 1) / 2 == n as int / 2
  {
  }

  /** When the computer's index is above the user's, the code compares the
      plain distance `c - u` with `n / 2`. */
  lemma AboveComparesDistance(u: int32, c: int32, n: int32)
    requires InGame(u, c, n) && u < c
    ensures WinMessage(u, c, n) == ComputerWin <==> c - u <= n / 2
  {
  }

  /** When the computer's index is below the user's, the code's verdict
      depends on the computer's index alone: it wins iff `c <= n / 2`. */
  lemma BelowIgnoresUserMove(u: int32, c: int32, n: int32)
    requires InGame(u, c, n) && c < u
    ensures WinMessage(u, c, n) == ComputerWin <==> c <= n / 2
  {
  }

  /** For an odd number of moves the code follows the cyclic rule whenever
      the computer's index is not below the user's. */
  lemma AgreesWhenComputerNotBelow(u: int32, c: int32, n: int32)
    requires InGame(u, c, n) && n % 2 == 1 && u <= c
    ensures WinMessage(u, c, n) == CyclicOutcome(u as int, c as int, n as int)
  {
    if u < c {
      AboveComparesDistance(u, c, n);
      CyclicDistance(u as int, c as int, n as int);
      OddHalf(n);
    }
  }

  /** Exactly where the code and the cyclic rule part ways, for an odd number
      of moves: below the user's index, the code lets the computer win iff
      `c <= n / 2`, the cyclic rule iff `u - c > n / 2`. */
  lemma AgreesExactlyWhen(u: int32, c: int32, n: int32)
    requires InGame(u, c, n) && n % 2 == 1
    ensures WinMessage(u, c, n) == CyclicOutcome(u as int, c as int, n as int)
            <==> u <= c || (c <= n / 2 <==> u - c > n / 2)
  {
    if u <= c {
      AgreesWhenComputerNotBelow(u, c, n);
    } else {
      BelowIgnoresUserMove(u, c, n);
      CyclicDistance(u as int, c as int, n as int);
      OddHalf(n);
    }
  }

  /** Classic rock-paper-scissors (0 rock, 1 paper, 2 scissors): the user
      plays paper, the computer rock, and the code says the computer wins,
      where the cyclic rule says the user does. */
  lemma PaperAgainstRockCounterexample()
    ensures WinMessage(1, 0, 3) == ComputerWin
    ensures CyclicOutcome(1, 0, 3) == UserWin
  {
  }

  /** How many entries of `s` equal `o`. */
  function CountOf(s: seq<Outcome>, o: Outcome): (k: nat)
    ensures k <= |s|
  {
    if s == [] then 0
    else CountOf(s[..|s| - 1], o) + (if s[|s| - 1] == o then 1 else 0)
  }

  /** What each computer move 0..n-1 yields against user move `u`, under the
      cyclic rule and under the code. */
  function CyclicRow(u: int, n: int): (row: seq<Outcome>)
    requires n > 0
    ensures |row| == n
  {
    seq(n, c => CyclicOutcome(u, c, n))
  }

  function AsWrittenRow(u: int32, n: int32): (row: seq<Outcome>)
    requires n >= 0
    ensures |row| == n as int
  {
    seq(n as int, c requires 0 <= c < n as int => WinMessage(u, c as int32, n))
  }

  /** Every entry is one of the three outcomes. */
  lemma {:induction false} CountsPartition(s: seq<Outcome>)
    ensures CountOf(s, Draw) + CountOf(s, ComputerWin) + CountOf(s, UserWin) == |s|
  {
    if s != [] {
      CountsPartition(s[..|s| - 1]);
    }
  }

  /** The number of integers x with 0 <= x < k and a <= x < b. */
  function Between(k: int, a: int, b: int): (m: nat)
  {
    var hi := if k < b then k else b;
    var lo := if a < 0 then 0 else a;
    if hi <= lo then 0 else hi - lo
  }

  /** The computer moves below `k` that beat `u` under the cyclic rule are
      those wrapping past the end, [0, u+h-n+1), and those just after `u`,
      [u+1, u+h+1), where h = (n-1)/2. */
  lemma {:induction false} CyclicWinsBelow(u: int, n: int, k: nat)
    requires 0 <= u < n && k <= n
    ensures CountOf(CyclicRow(u, n)[..k], ComputerWin)
            == Between(k, 0, u + (n - 1) / 2 - n + 1) + Between(k, u + 1, u + (n - 1) / 2 + 1)
  {
    if k > 0 {
      var row, c, h := CyclicRow(u, n), k - 1, (n - 1) / 2;
      assert row[..k][..c] == row[..c];
      CyclicWinsBelow(u, n, c);
      var step := if row[c] == ComputerWin then 1 else 0;
      assert CountOf(row[..k], ComputerWin) == CountOf(row[..c], ComputerWin) + step;
      CyclicDistance(u, c, n);
      if c < u {
        assert step == 1 <==> c < u + h - n + 1;
      } else if c > u {
        assert step == 1 <==> c < u + h + 1;
      }
    }
  }

  /** Against the cyclic rule, exactly one computer move draws with `u`. */
  lemma {:induction false} CyclicDrawsBelow(u: int, n: int, k: nat)
    requires 0 <= u < n && k <= n
    ensures CountOf(CyclicRow(u, n)[..k], Draw) == Between(k, u, u + 1)
  {
    if k > 0 {
      var row := CyclicRow(u, n);
      assert row[..k][..k - 1] == row[..k - 1];
      CyclicDrawsBelow(u, n, k - 1);
    }
  }

  /** The cyclic rule is a balanced tournament: for an odd number n >= 3 of
      moves, every move beats exactly (n-1)/2 moves, loses to exactly
      (n-1)/2 and draws only with itself. */
  lemma CyclicIsBalanced(u: int, n: int)
    requires 0 <= u < n && n >= 3 && n % 2 == 1
    ensures CountOf(CyclicRow(u, n), ComputerWin) == (n - 1) / 2
    ensures CountOf(CyclicRow(u, n), UserWin) == (n - 1) / 2
    ensures CountOf(CyclicRow(u, n), Draw) == 1
  {
    var row := CyclicRow(u, n);
    assert row[..n] == row;
    CyclicWinsBelow(u, n, n);
    CyclicDrawsBelow(u, n, n);
    CountsPartition(row);
  }

  /** The code is not balanced: with three moves the user's paper (index 1)
      loses to two of the computer's three moves and wins against none. */
  lemma AsWrittenIsUnbalanced()
    ensures CountOf(AsWrittenRow(1, 3), ComputerWin) == 2
    ensures CountOf(AsWrittenRow(1, 3), UserWin) == 0
  {
    var row := AsWrittenRow(1, 3);
    assert row == [ComputerWin, Draw, ComputerWin];
    assert row[..2][..1] == row[..1];
  }
}
