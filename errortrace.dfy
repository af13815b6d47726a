/** Error values and the two error-handling helpers of the supervisor:
    wrapAndTrace, which wraps an error with a message built from extra
    strings, and checks, which runs a list of closers from last to first. */
module ErrorTrace {

  datatype Option<T> = None | Some(value: T)

  /** An error: one reported by a collaborator (a file read, the service
      manager), or one wrapped with an extra message as errors.Wrap does. */
  datatype Error =
    | Cause(detail: string)
    | Wrapped(inner: Error, message: string)

  /** The message wrapAndTrace builds from its extra strings: each one in
      order, preceded by a single space. */
  function Joined(messages: seq<string>): (r: string)
    ensures r == "" <==> messages == []
    ensures messages != [] ==> r[0] == ' '
  {
    if messages == [] then "" else " " + messages[0] + Joined(messages[1..])
  }

  /** Adding one string at the end adds exactly " " + that string. */
  lemma {:induction false} JoinedSnoc(messages: seq<string>, m: string)
    ensures Joined(messages + [m]) == Joined(messages) + " " + m
  {
    if messages == [] {
      assert messages + [m] == [m];
      assert Joined([m]) == " " + m + Joined([]);
    } else {
      assert (messages + [m])[0] == messages[0];
      assert (messages + [m])[1..] == messages[1..] + [m];
      JoinedSnoc(messages[1..], m);
    }
  }

  /** wrapAndTrace(err, messages...): the message is accumulated in a loop,
      then err is wrapped with it. The wrap message is that string alone:
      the format makeErrorMessage puts around it is not modelled. */
  method WrapAndTrace(err: Error, messages: seq<string>) returns (r: Error)
    ensures r.Wrapped? && r.inner == err
    ensures r.message == Joined(messages)
  {
    var message := "";
    for i := 0 to |messages|
      invariant message == Joined(messages[..i])
    {
      assert messages[..i + 1] == messages[..i] + [messages[i]];
      JoinedSnoc(messages[..i], messages[i]);
      message := message + (" " + messages[i]);
    }
    assert messages[..|messages|] == messages;
    r := Wrapped(err, message);
  }

  /** The errors among the closers' results, in slice order. */
  function Failures(results: seq<Option<Error>>): seq<Error>
  {
    if results == [] then []
    else (if results[0].Some? then [results[0].value] else []) + Failures(results[1..])
  }

  function Reversed<T>(s: seq<T>): seq<T>
  {
    if s == [] then [] else Reversed(s[1..]) + [s[0]]
  }

  /** checks(fs...): results[i] is what fs[i] returns when called. Every
      closer is called once, from the last to the first; an error is logged
      and the loop goes on. `called` is the order of the calls, `logged` the
      errors written to the log. */
  method Checks(results: seq<Option<Error>>) returns (called: seq<nat>, logged: seq<Error>)
    ensures |called| == |results|
    ensures forall k :: 0 <= k < |called| ==> called[k] == |results| - 1 - k
    ensures logged == Reversed(Failures(results))
  {
    called, logged := [], [];
    var i: int := |results| - 1;
    while i >= 0
      invariant -1 <= i < |results|
      invariant |called| == |results| - 1 - i
      invariant forall k :: 0 <= k < |called| ==> called[k] == |results| - 1 - k
      invariant logged == Reversed(Failures(results[i + 1..]))
    {
      assert results[i..][0] == results[i];
      assert results[i..][1..] == results[i + 1..];
      called := called + [i];
      ghost var rest := Failures(results[i + 1..]);
      if results[i].Some? {
        assert Failures(results[i..]) == [results[i].value] + rest;
        assert ([results[i].value] + rest)[1..] == rest;
        logged := logged + [results[i].value];
      } else {
        assert Failures(results[i..]) == [] + rest;
        assert [] + rest == rest;
      }
      i := i - 1;
    }
    assert results[0..] == results;
  }
}
