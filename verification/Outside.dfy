/** What the engine asks of the outside: the file being sent and the transport. */
module Outside {
  import opened Bytes
  import opened Layout

  /** The outside's part in one attempt to send: does the read of the file succeed, and what
      does the transport answer. Negative answers are refusals. */
  datatype Outcome = Outcome(readOk: bool, answer: int) {
    predicate Ok() {
      readOk && answer >= 0
    }
  }

  /** Nothing is refused, however often the outside is asked. */
  ghost predicate Calm(outs: nat -> Outcome) {
    forall k :: outs(k).Ok()
  }

  /** The first n answers are no refusals. */
  ghost predicate Taken(answers: nat -> int, n: nat) {
    forall k :: 0 <= k < n ==> answers(k) >= 0
  }

  /** The position of the first refusal among m answers, or m. */
  function FirstRefusal(answers: nat -> int, m: nat): (n: nat)
    ensures n <= m && Taken(answers, n) && (n == m || answers(n) < 0)
  {
    if m == 0 then 0
    else
      var n := FirstRefusal(answers, m - 1);
      if n == m - 1 && answers(n) >= 0 then m else n
  }

  lemma FirstRefusalIs(answers: nat -> int, m: nat, n: nat)
    requires n <= m && Taken(answers, n) && (n == m || answers(n) < 0)
    ensures FirstRefusal(answers, m) == n
  {
    var k := FirstRefusal(answers, m);
    assert k == m || answers(k) < 0;
  }

  lemma TakenNext(answers: nat -> int, n: nat)
    ensures Taken(answers, 0)
    ensures Taken(answers, n) && answers(n) >= 0 ==> Taken(answers, n + 1)
  {
  }

  /** One read of a fragment; a failing read yields nothing. */
  method ReadFragment(file: seq<byte>, d: nat, readOk: bool) returns (got: seq<byte>)
    requires d * TRANSFER_FRAGMENT_SIZE < |file|
    ensures got == if readOk then Chunk(file, TRANSFER_FRAGMENT_SIZE, d) else []
  {
    if !readOk {
      return [];
    }
    var offset := d * TRANSFER_FRAGMENT_SIZE;
    var remain := |file| - offset;
    var len := if remain < TRANSFER_FRAGMENT_SIZE then remain else TRANSFER_FRAGMENT_SIZE;
    got := file[offset..offset + len];
  }
}
