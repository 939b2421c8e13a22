/**
 * The error list of the state message as State::AppendError and State::ClearErrorWithType
 * document it: at most one error per error type is the intended shape of the list.
 */
module ErrorList {
  import opened Messages
  import opened Seqs

  /** No two errors share an error type. */
  ghost predicate UniqueTypes(errors: seq<Error>) {
    forall i, j :: 0 <= i < j < |errors| ==> errors[i].errorType != errors[j].errorType
  }

  /**
   * AppendError: an error of a type already listed replaces the first one of that type in
   * place; an error of a new type is appended. The new error is listed afterwards, no
   * other entry changes, and a list with unique types keeps unique types.
   */
  function ReplaceOrAppend(errors: seq<Error>, error: Error): (r: seq<Error>)
    ensures error in r
    ensures forall j :: 0 <= j < |r| ==> r[j] == error || r[j] in errors
    ensures forall j :: 0 <= j < |errors| && errors[j].errorType != error.errorType ==> errors[j] in r
    ensures |r| == |errors| || r == errors + [error]
    ensures forall i :: (0 <= i < |errors| && errors[i].errorType == error.errorType
                         && forall j :: 0 <= j < i ==> errors[j].errorType != error.errorType) ==>
      r == errors[i := error]
    ensures (forall j :: 0 <= j < |errors| ==> errors[j].errorType != error.errorType) ==> r == errors + [error]
    ensures UniqueTypes(errors) ==> UniqueTypes(r)
  {
    match FirstIndex(errors, ErrorType, error.errorType)
    case Some(i) =>
      var r := errors[i := error];
      assert r[i] == error;
      assert forall j :: 0 <= j < |errors| && errors[j].errorType != error.errorType ==> r[j] == errors[j];
      r
    case None => errors + [error]
  }

  /**
   * ClearErrorWithType: every error of the given type is removed, the others kept in order
   * (WithoutTypeConcat states the order). A list with unique types keeps unique types.
   */
  function WithoutType(errors: seq<Error>, errorType: string): (r: seq<Error>)
    ensures |r| <= |errors|
    ensures forall j :: 0 <= j < |r| ==> r[j].errorType != errorType && r[j] in errors
    ensures forall j :: 0 <= j < |errors| && errors[j].errorType != errorType ==> errors[j] in r
    ensures (forall j :: 0 <= j < |errors| ==> errors[j].errorType != errorType) ==> r == errors
  {
    if errors == [] then []
    else
      var last := errors[|errors| - 1];
      WithoutType(errors[..|errors| - 1], errorType) + (if last.errorType != errorType then [last] else [])
  }

  /** Clearing a type from a list with unique types leaves a list with unique types. */
  lemma {:induction false} WithoutTypeKeepsUnique(errors: seq<Error>, errorType: string)
    requires UniqueTypes(errors)
    ensures UniqueTypes(WithoutType(errors, errorType))
  {
    if errors != [] {
      var init, last := errors[..|errors| - 1], errors[|errors| - 1];
      forall i, j | 0 <= i < j < |init| ensures init[i].errorType != init[j].errorType {
        assert init[i] == errors[i] && init[j] == errors[j];
      }
      WithoutTypeKeepsUnique(init, errorType);
      var rest := WithoutType(init, errorType);
      forall k | 0 <= k < |rest| ensures rest[k].errorType != last.errorType {
        var p :| 0 <= p < |init| && init[p] == rest[k];
        assert errors[p] == init[p];
      }
    }
  }

  /**
   * Removing a type from a concatenation removes it from both parts and keeps them in
   * their order: with WithoutType's contract on a single error, this fixes the result
   * entry by entry, its order and its repetitions included.
   */
  lemma {:induction false} WithoutTypeConcat(a: seq<Error>, b: seq<Error>, errorType: string)
    ensures WithoutType(a + b, errorType) == WithoutType(a, errorType) + WithoutType(b, errorType)
  {
    if b != [] {
      var init := b[..|b| - 1];
      WithoutTypeConcat(a, init, errorType);
      assert (a + b)[..|a + b| - 1] == a + init;
    } else {
      assert a + b == a;
    }
  }

  /** Appending the same error twice gives the same list as appending it once, for any list. */
  lemma {:induction false} ReplaceOrAppendIdempotent(errors: seq<Error>, error: Error)
    ensures ReplaceOrAppend(ReplaceOrAppend(errors, error), error) == ReplaceOrAppend(errors, error)
  {
    var once := ReplaceOrAppend(errors, error);
    match FirstIndex(errors, ErrorType, error.errorType)
    case Some(i) =>
      assert once == errors[i := error];
      assert forall j :: 0 <= j < i ==> once[j].errorType != error.errorType by {
        forall j | 0 <= j < i ensures once[j].errorType != error.errorType {
          assert once[j] == errors[j];
        }
      }
      assert once[i].errorType == error.errorType;
      assert once[i := error] == once;
    case None =>
      assert once == errors + [error];
      assert forall j :: 0 <= j < |errors| ==> once[j].errorType != error.errorType by {
        forall j | 0 <= j < |errors| ensures once[j].errorType != error.errorType {
          assert once[j] == errors[j];
        }
      }
      assert once[|errors|].errorType == error.errorType;
      assert once[|errors| := error] == once;
  }
}
