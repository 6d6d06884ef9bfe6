# Snake score service — high-score store

This project models the backend of a browser snake game: a small HTTP service
that keeps one high score in memory. The value starts at 0. The read endpoint
returns it and changes nothing. The update endpoint takes a candidate score.
It rejects a negative score with an error (HTTP 400). Otherwise it keeps the
larger of the stored value and the candidate and returns the new stored value.

Everything is in `score_service.dfy`, module `ScoreService`:

- `HighScoreStore` is the module-level `high_score` variable as a class. Its
  field `highScore` is updated in place by `Update`, as the source updates the
  global.
- `Read` and `Update` are the two handlers, written as plain methods.
  `Update` returns `UpdateResult`: `Accepted(highScore)` for the JSON body, or
  `Rejected(NegativeScore)` for the 400 response.
- The pure specification is `UpdatedHighScore` (one update) and `Replay`. `Replay`
  gives the stored value after any sequence of `Request`s, starting from 0.
- `IsBestAccepted` is an independent reference description: 0, or the largest
  score among the accepted updates. `ReplayIsBestAccepted` proves that
  `Replay` matches it.
- The object invariant `Valid()` says two things. The field is non-negative.
  The field equals `Replay` of the ghost log of update requests served so far.

Python integers are unbounded, so `int` models them exactly.

## Model

| member | source | states |
|---|---|---|
| `ScoreService.UpdatedHighScore` | backend/main.py:51-56 | one update never lowers the value; an accepted score is a lower bound of the result; the result is either the old value or the accepted score |
| `ScoreService.Serve` | backend/main.py:40-58 | serving a read or an update never lowers the stored value |
| `ScoreService.Replay` | backend/main.py:14 | after any sequence of requests the stored value stays at or above the initial 0 |
| `ScoreService.ReplayIsBestAccepted` | backend/main.py:14-58 | the value after any request sequence is 0 or an accepted score, and no accepted score exceeds it |
| `ScoreService.BestAcceptedUnique` | backend/main.py:14-58 | the reference description pins down a single value, so it fully characterises the stored high score |
| `ScoreService.ReplayMonotone` | backend/main.py:54-56 | the stored value never decreases: any prefix of a request sequence leaves a value no larger than the whole sequence |
| `ScoreService.ReadIsNoOp` | backend/main.py:40-44 | a read request leaves the stored value unchanged |
| `ScoreService.RejectedUpdateIsNoOp` | backend/main.py:51-52 | a negative score leaves the stored value unchanged, because the error is raised before any assignment |
| `ScoreService.AcceptedUpdateIsMax` | backend/main.py:51-56 | a score of 0 or more, 0 included, leaves max(old value, score) |
| `ScoreService.UpdateIdempotent` | backend/main.py:55-58 | submitting the same score twice leaves the same value as submitting it once |
| `ScoreService.HighScoreStore.constructor` | backend/main.py:14 | a new store holds 0 and has served nothing |
| `ScoreService.HighScoreStore.Read` | backend/main.py:40-44 | returns the stored value and changes nothing; the value is the best accepted score so far, or 0 |
| `ScoreService.HighScoreStore.Update` | backend/main.py:47-58 | a negative score gives `Rejected(NegativeScore)` and leaves the state unchanged; any other score sets the value to max(old, score) and returns `Accepted` with the new stored value; the invariant is kept |

## Left out

- FastAPI app construction and route decorators (backend/main.py:7-11, 33, 40, 47): framework wiring. The handlers are plain methods.
- CORS middleware (backend/main.py:24-30): HTTP transport policy with no state.
- The `/health` endpoint (backend/main.py:33-37): a constant readiness reply with no state.
- Pydantic parsing of `ScorePayload` (backend/main.py:17-20) and JSON encoding: library code. `Update` takes an `int` and returns a datatype.
- The status code 400 and its detail text (backend/main.py:52): modelled as the single error `NegativeScore`.
- Concurrent requests: the server may run handlers on several threads. The model treats calls as sequential.
- Reads in the ghost log: `HighScoreStore.history` records only updates, because `Read` changes no state. `ReadIsNoOp` shows that recording reads would give the same value.
- The snake game simulation and the client-side score sync are not part of this model.
