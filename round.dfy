/**
 One round of the game loop in `Main` (Intra/Program.cs): the computer's
 move and the secret key are drawn, the HMAC of the move is published in
 hex, the user's line is classified, and the outcome and the key are shown.
 The random sources and HMAC-SHA256 are parameters here: `randomNumbers`
 stands for the 32 bytes of the secure generator, `computerMove` for
 `random.Next(0, Count)`, and `mac` for HMAC-SHA256 as a function of key
 bytes and message bytes.
 */
module Round {
  import opened Wrappers
  import opened HexCodec
  import opened WinRule

  /** What the loop does with the user's line. `Restart` is the
      `continue`: a whole new round, with a new computer move and key. */
  datatype Decision = Restart | Exit | Play(move: nat)

  /** The three checks after `int.TryParse`: a line that does not parse or
      lies outside [0, moveCount] restarts, 0 exits, k plays move k-1. */
  function Classify(parsed: Option<int>, moveCount: nat): (d: Decision)
    ensures d == Restart <==> parsed.None? || parsed.value < 0 || parsed.value > moveCount
    ensures d == Exit <==> parsed == Some(0)
    ensures d.Play? ==> d.move < moveCount && parsed == Some(d.move + 1)
  {
    if parsed.None? then Restart
    else if parsed.value < 0 || parsed.value > moveCount then Restart
    else if parsed.value == 0 then Exit
    else Play(parsed.value - 1)
  }

  /** Every move is reachable, by typing its number shown in the menu. */
  lemma {:induction false} EveryMoveSelectable(moveCount: nat, i: nat)
    requires i < moveCount
    ensures Classify(Some(i + 1), moveCount) == Play(i)
    ensures forall k :: Classify(Some(k), moveCount) == Play(i) ==> k == i + 1
  {
  }

  /** How a round ends. */
  datatype RoundEnd = NewRound | Quit | Finished(userMove: nat, outcome: Outcome)

  /** The decision and, for a move, the verdict of `GetWinMessage` called
      with `intUserInput - 1`, the computer's move and `args.Length`. */
  function PlayRound(parsed: Option<int>, computerMove: nat, moveCount: nat): (e: RoundEnd)
    requires computerMove < moveCount < 0x8000_0000
    ensures e == NewRound <==> Classify(parsed, moveCount) == Restart
    ensures e == Quit <==> Classify(parsed, moveCount) == Exit
    ensures e.Finished? <==> Classify(parsed, moveCount).Play?
    ensures e.Finished? ==> e.userMove < moveCount && parsed == Some(e.userMove + 1)
    ensures e.Finished? ==> (e.outcome == Draw <==> e.userMove == computerMove)
    ensures e.Finished? ==> e.outcome == WinMessage(e.userMove as int32, computerMove as int32, moveCount as int32)
    ensures e.Finished? ==> Message(e.outcome) == GetWinMessage(e.userMove as int32, computerMove as int32, moveCount as int32)
  {
    match Classify(parsed, moveCount)
    case Restart => NewRound
    case Exit => Quit
    case Play(u) =>
      Finished(u, WinMessage(u as int32, computerMove as int32, moveCount as int32))
  }

  /** `Encoding.ASCII.GetBytes`: each character below 128 is its own code,
      every other character becomes '?'. */
  function AsciiBytes(s: string): (r: seq<byte>)
    ensures |r| == |s|
    ensures forall i :: 0 <= i < |s| ==> r[i] < 128
    ensures forall i :: 0 <= i < |s| && s[i] as int < 128 ==> r[i] as int == s[i] as int
    ensures forall i :: 0 <= i < |s| && s[i] as int >= 128 ==> r[i] == '?' as int as byte
  {
    seq(|s|, i requires 0 <= i < |s| => if s[i] as int < 128 then s[i] as int as byte else '?' as int as byte)
  }

  /** `SecureRandom`: the generator's 32 bytes, printed as hex. */
  function SecureRandom(randomNumbers: seq<byte>): (key: string)
    requires |randomNumbers| == 32
    ensures key == LowerHex(randomNumbers) && |key| == 64
  {
    ToHexFromUtf8(randomNumbers)
  }

  /** `GetHMAC`: the key string is decoded with `HexDecode` and keys the MAC
      of the input's ASCII bytes; a key that does not decode throws. */
  function GetHmac(input: string, key: string, mac: (seq<byte>, seq<byte>) -> seq<byte>): (r: Option<seq<byte>>)
    ensures r.Some? <==> Decoded(key).Some?
    ensures r.Some? ==> r.value == mac(Decoded(key).value, AsciiBytes(input))
    ensures forall k :: key == LowerHex(k) ==> r == Some(mac(k, AsciiBytes(input)))
  {
    DecodeLowerHexAll();
    match Decoded(key)
    case None => None
    case Some(keyBytes) => Some(mac(keyBytes, AsciiBytes(input)))
  }

  /** The key printed by `SecureRandom` decodes to exactly the 32 random
      bytes. */
  lemma SecretKeyShape(randomNumbers: seq<byte>)
    requires |randomNumbers| == 32
    ensures Decoded(SecureRandom(randomNumbers)) == Some(randomNumbers)
  {
    HexRoundTrip(randomNumbers);
  }

  /** The commitment can be checked: the HMAC published before the user's
      move is keyed by the 32 random bytes, and anyone who reads the key
      revealed afterwards as base16 and recomputes the HMAC of the
      computer's move obtains the published HMAC. */
  lemma CommitmentVerifiable(moves: seq<string>, computerMove: nat, randomNumbers: seq<byte>,
                             mac: (seq<byte>, seq<byte>) -> seq<byte>)
    requires computerMove < |moves| && |randomNumbers| == 32
    ensures GetHmac(moves[computerMove], SecureRandom(randomNumbers), mac)
            == Some(mac(randomNumbers, AsciiBytes(moves[computerMove])))
    ensures forall k :: LowerHex(k) == SecureRandom(randomNumbers) ==>
              Some(mac(k, AsciiBytes(moves[computerMove])))
              == GetHmac(moves[computerMove], SecureRandom(randomNumbers), mac)
  {
    SecretKeyShape(randomNumbers);
  }

  /** `Encoding.ASCII` turns every non-ASCII character into '?', so two
      move names that differ only there get the same bytes, and so the
      same HMAC: the commitment does not tell them apart. */
  lemma AsciiMergesNonAscii()
    ensures "é" != "è"
    ensures AsciiBytes("é") == AsciiBytes("è")
  {
  }

  /** Comparing the printed HMACs is comparing the HMACs: a recomputed HMAC
      prints as the published string only if it is the same bytes. */
  lemma PublishedHexBinds(published: seq<byte>, recomputed: seq<byte>)
    ensures ToHexFromUtf8(recomputed) == ToHexFromUtf8(published) <==> recomputed == published
  {
    if ToHexFromUtf8(recomputed) == ToHexFromUtf8(published) {
      ToHexFromUtf8Injective(recomputed, published);
    }
  }
}
