/** The snake score service: one in-memory high score behind a read
    endpoint and an update endpoint. The stored value starts at 0, an update
    with a negative score is rejected, and an accepted update keeps the larger
    of the stored value and the submitted score.

    The pure part below states what the store holds after any sequence of
    requests; the class HighScoreStore is the store itself, updated in place. */
module ScoreService {

  /** The one error the update endpoint raises (an HTTP 400 response). */
  datatype UpdateError = NegativeScore

  /** What the update endpoint answers: the high score after the update, or
      the error. */
  datatype UpdateResult = Accepted(highScore: int) | Rejected(error: UpdateError)

  /** A request served by the store. */
  datatype Request = ReadRequest | UpdateRequest(score: int)

  /** The value the store starts with. */
  const InitialHighScore: int := 0

  /** An update request that passes the validation guard. */
  predicate IsAccepted(req: Request) {
    req.UpdateRequest? && req.score >= 0
  }

  /** The stored value after one update with `score` on a store holding
      `stored`: a negative score leaves it alone, otherwise it only moves up
      to the score when the score is larger. */
  function UpdatedHighScore(stored: int, score: int): (r: int)
    ensures r >= stored
    ensures score >= 0 ==> r >= score
    ensures r == stored || (score >= 0 && r == score)
  {
    if score < 0 then stored
    else if score > stored then score
    else stored
  }

  /** The stored value after serving `req` on a store holding `stored`. */
  function Serve(stored: int, req: Request): (r: int)
    ensures r >= stored
  {
    match req
    case ReadRequest => stored
    case UpdateRequest(score) => UpdatedHighScore(stored, score)
  }

  /** The stored value after serving `reqs` in order, starting from the
      initial value. */
  function Replay(reqs: seq<Request>): (r: int)
    ensures r >= InitialHighScore
  {
    if reqs == [] then InitialHighScore
    else Serve(Replay(reqs[..|reqs| - 1]), reqs[|reqs| - 1])
  }

  /** Reference description of the high score, independent of how requests
      are served: `v` is 0 or the score of an accepted request, and no
      accepted request carries a larger score. */
  ghost predicate IsBestAccepted(v: int, reqs: seq<Request>) {
    && v >= 0
    && (forall i :: 0 <= i < |reqs| && IsAccepted(reqs[i]) ==> reqs[i].score <= v)
    && (v == InitialHighScore || exists i :: 0 <= i < |reqs| && IsAccepted(reqs[i]) && reqs[i].score == v)
  }

  /** Replaying a log from the initial value yields exactly the best accepted
      score of that log. */
  lemma {:induction false} ReplayIsBestAccepted(reqs: seq<Request>)
    ensures IsBestAccepted(Replay(reqs), reqs)
  {
    if reqs != [] {
      var n := |reqs| - 1;
      var prefix := reqs[..n];
      ReplayIsBestAccepted(prefix);
      var before := Replay(prefix);
      var last := reqs[n];
      assert forall i :: 0 <= i < n ==> reqs[i] == prefix[i];
      if IsAccepted(last) && last.score > before {
        assert Replay(reqs) == last.score;
        assert IsAccepted(reqs[n]) && reqs[n].score == Replay(reqs);
      } else {
        assert Replay(reqs) == before;
        if before != InitialHighScore {
          var j :| 0 <= j < n && IsAccepted(prefix[j]) && prefix[j].score == before;
          assert IsAccepted(reqs[j]) && reqs[j].score == Replay(reqs);
        }
      }
    }
  }

  /** The reference description determines the value: at most one value is
      the best accepted score of a log. */
  lemma BestAcceptedUnique(v: int, w: int, reqs: seq<Request>)
    requires IsBestAccepted(v, reqs) && IsBestAccepted(w, reqs)
    ensures v == w
  {
  }

  /** The stored value never decreases: every prefix of a log leaves a value
      no larger than the whole log does. */
  lemma {:induction false} ReplayMonotone(reqs: seq<Request>, k: nat)
    requires k <= |reqs|
    ensures Replay(reqs[..k]) <= Replay(reqs)
    decreases |reqs| - k
  {
    if k < |reqs| {
      ReplayMonotone(reqs, k + 1);
      assert reqs[..k + 1][..k] == reqs[..k];
    } else {
      assert reqs[..k] == reqs;
    }
  }

  /** A read leaves the stored value as it was. */
  lemma ReadIsNoOp(reqs: seq<Request>)
    ensures Replay(reqs + [ReadRequest]) == Replay(reqs)
  {
  }

  /** A rejected update leaves the stored value as it was. */
  lemma RejectedUpdateIsNoOp(reqs: seq<Request>, score: int)
    requires score < 0
    ensures Replay(reqs + [UpdateRequest(score)]) == Replay(reqs)
  {
  }

  /** An accepted update leaves the maximum of the previous value and the
      submitted score; in particular a score of 0 is accepted. */
  lemma AcceptedUpdateIsMax(reqs: seq<Request>, score: int)
    requires score >= 0
    ensures Replay(reqs + [UpdateRequest(score)]) == if score > Replay(reqs) then score else Replay(reqs)
  {
  }

  /** Submitting the same score twice leaves the same value as submitting it
      once. */
  lemma {:induction false} UpdateIdempotent(reqs: seq<Request>, score: int)
    ensures Replay(reqs + [UpdateRequest(score), UpdateRequest(score)])
         == Replay(reqs + [UpdateRequest(score)])
  {
    var once := reqs + [UpdateRequest(score)];
    assert (once + [UpdateRequest(score)])[..|once|] == once;
    assert reqs + [UpdateRequest(score), UpdateRequest(score)] == once + [UpdateRequest(score)];
    assert once[..|reqs|] == reqs;
  }

  /** The service's state: the module-level high score. */
  class HighScoreStore {
    var highScore: int
    /** The update requests served so far, oldest first. Reads are not
        recorded: ReadIsNoOp shows they leave the value unchanged. */
    ghost var history: seq<Request>

    ghost predicate Valid()
      reads this
    {
      highScore >= 0 && highScore == Replay(history)
    }

    constructor ()
      ensures Valid()
      ensures highScore == InitialHighScore && history == []
    {
      highScore := InitialHighScore;
      history := [];
    }

    /** The read endpoint: the current high score, nothing changed. The value
        is the best score accepted so far, or 0 when none was. */
    method Read() returns (r: int)
      requires Valid()
      ensures r == highScore && r >= 0
      ensures IsBestAccepted(r, history)
    {
      r := highScore;
      ReplayIsBestAccepted(history);
    }

    /** The update endpoint. */
    method Update(score: int) returns (r: UpdateResult)
      requires Valid()
      modifies this
      ensures Valid()
      ensures history == old(history) + [UpdateRequest(score)]
      ensures score < 0 ==> r == Rejected(NegativeScore) && highScore == old(highScore)
      ensures score >= 0 ==> r == Accepted(highScore)
      ensures score >= 0 ==> highScore == if score > old(highScore) then score else old(highScore)
    {
      if score < 0 {
        r := Rejected(NegativeScore);
        RejectedUpdateIsNoOp(history, score);
        history := history + [UpdateRequest(score)];
        return;
      }
      AcceptedUpdateIsMax(history, score);
      if score > highScore {
        highScore := score;
      }
      history := history + [UpdateRequest(score)];
      r := Accepted(highScore);
    }
  }
}
