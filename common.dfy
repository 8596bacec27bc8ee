/** Types shared by every part of the notes backend model. */
module Common {

  /** A value that may be absent (an `undefined` request field, a `null` query result). */
  datatype Option<+T> = None | Some(value: T)

  /** A user's `_id`. Users are stored in insertion order and never deleted,
      so the id of a user is its position in the users collection. */
  type UserId = nat

  /** A note's `_id`. */
  type NoteId = nat

  /** The outcome of a request as the client sees it.
      Created = 201, Ok = 200, BadRequest = 400, Unauthorized = 401,
      Forbidden = 403, NotFound = 404. Rejected: the handler's promise
      rejects (a mongoose validation error the handler does not catch),
      so the route code itself sends no response. */
  datatype Status = Created | Ok | BadRequest | Unauthorized | Forbidden | NotFound | Rejected

  /** Number of occurrences of `x` in `s`. */
  function Count<T(==)>(s: seq<T>, x: T): (n: nat)
    ensures n <= |s|
    ensures n == 0 <==> x !in s
  {
    if s == [] then 0 else (if s[0] == x then 1 else 0) + Count(s[1..], x)
  }

  /** No element occurs twice. */
  predicate NoDuplicates<T(==)>(s: seq<T>) {
    forall i, j :: 0 <= i < j < |s| ==> s[i] != s[j]
  }

  /** In a sequence without duplicates an element occurs at most once. */
  lemma {:induction false} CountNoDuplicates<T>(s: seq<T>, x: T)
    requires NoDuplicates(s)
    ensures Count(s, x) == if x in s then 1 else 0
  {
    if s != [] {
      assert NoDuplicates(s[1..]) by {
        forall i, j | 0 <= i < j < |s[1..]| ensures s[1..][i] != s[1..][j] {
          assert s[1..][i] == s[i + 1] && s[1..][j] == s[j + 1];
        }
      }
      CountNoDuplicates(s[1..], x);
      if s[0] == x {
        assert x !in s[1..] by {
          forall k | 0 <= k < |s[1..]| ensures s[1..][k] != x {
            assert s[1..][k] == s[k + 1];
          }
        }
      }
    }
  }

  /** Appending an element that is not yet present keeps a sequence duplicate-free. */
  lemma AppendFreshNoDuplicates<T>(s: seq<T>, x: T)
    requires NoDuplicates(s) && x !in s
    ensures NoDuplicates(s + [x])
  {
  }
}
