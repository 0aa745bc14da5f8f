/** Types and sequence helpers shared by the chat backend's controllers and
    its socket server. */
module Common {

  /** A user's identity as the client and the auth token carry it (a string
      id; the empty string is falsy in the server's checks). */
  type UserId = string

  /** A channel's identity, allocated by the store when a channel is created. */
  type ChannelId = nat

  datatype Option<+T> = None | Some(value: T)

  /** The outcome of an HTTP handler: a JSON body, or an error status with
      its message. */
  datatype Reply<+T> = Ok(body: T) | Fail(status: nat, message: string)

  const BadRequest: nat := 400
  const Forbidden: nat := 403
  const NotFound: nat := 404
  const ServerError: nat := 500

  /** JavaScript truthiness of an optional string field (`if (x)`, `!x`):
      a missing value and the empty string are falsy, every other string is
      truthy. */
  predicate Truthy(x: Option<string>): (b: bool)
    ensures x.None? ==> !b
    ensures x == Some("") ==> !b
    ensures x.Some? && x.value != "" ==> b
  {
    x.Some? && x.value != ""
  }

  /** No element occurs twice. */
  predicate NoDup<T(==)>(s: seq<T>) {
    forall i, j :: 0 <= i < j < |s| ==> s[i] != s[j]
  }

  /** Removes the first occurrence of `x`, keeping the order of the rest
      (JavaScript `Map.delete` on the key order, MongoDB `deleteOne`). */
  function RemoveFirst<T(==)>(s: seq<T>, x: T): (r: seq<T>)
    ensures x !in s ==> r == s
    ensures multiset(r) == multiset(s) - multiset{x}
  {
    if s == [] then []
    else if s[0] == x then
      assert s == [s[0]] + s[1..];
      s[1..]
    else
      var rest := RemoveFirst(s[1..], x);
      assert s == [s[0]] + s[1..];
      [s[0]] + rest
  }

  /** In a sequence without duplicates, removing `x` removes every trace of
      it and keeps the rest free of duplicates. */
  lemma {:induction false} RemoveFirstNoDup<T>(s: seq<T>, x: T)
    requires NoDup(s)
    ensures NoDup(RemoveFirst(s, x)) && x !in RemoveFirst(s, x)
  {
    if s != [] {
      NoDupTail(s);
      if s[0] != x {
        RemoveFirstNoDup(s[1..], x);
        var rest := RemoveFirst(s[1..], x);
        assert s[0] !in rest by {
          assert multiset(s[1..])[s[0]] == 0;
          assert multiset(rest)[s[0]] == 0;
        }
        NoDupCons(s[0], rest);
      }
    }
  }

  /** Removing `x` cuts out its first occurrence, at `i`, and keeps
      everything before and after it in order. */
  lemma {:induction false} RemoveFirstAt<T>(s: seq<T>, x: T, i: nat)
    requires i < |s| && s[i] == x
    requires forall k :: 0 <= k < i ==> s[k] != x
    ensures RemoveFirst(s, x) == s[..i] + s[i + 1..]
  {
    if i > 0 {
      var t := s[1..];
      assert s[0] != x;
      assert forall k :: 0 <= k < i - 1 ==> t[k] != x by {
        forall k | 0 <= k < i - 1 ensures t[k] != x { assert t[k] == s[k + 1]; }
      }
      RemoveFirstAt(t, x, i - 1);
      CutAfterHead(s, i);
    }
  }

  lemma CutAfterHead<T>(s: seq<T>, i: nat)
    requires 0 < i < |s|
    ensures [s[0]] + (s[1..][..i - 1] + s[1..][i..]) == s[..i] + s[i + 1..]
  {
    assert [s[0]] + s[1..][..i - 1] == s[..i];
    assert s[1..][i..] == s[i + 1..];
  }

  /** Removing `x` keeps exactly the other elements. */
  lemma {:induction false} RemoveFirstMembers<T>(s: seq<T>, x: T)
    ensures forall y :: y in RemoveFirst(s, x) ==> y in s
    ensures forall y :: y in s && y != x ==> y in RemoveFirst(s, x)
  {
    if s != [] && s[0] != x {
      RemoveFirstMembers(s[1..], x);
    }
  }

  lemma NoDupTail<T>(s: seq<T>)
    requires NoDup(s) && s != []
    ensures NoDup(s[1..]) && s[0] !in s[1..]
  {
    forall i, j | 0 <= i < j < |s[1..]| ensures s[1..][i] != s[1..][j] {
      assert s[1..][i] == s[i + 1] && s[1..][j] == s[j + 1];
    }
    forall k | 0 <= k < |s[1..]| ensures s[1..][k] != s[0] {
      assert s[1..][k] == s[k + 1];
    }
  }

  lemma NoDupCons<T>(a: T, t: seq<T>)
    requires NoDup(t) && a !in t
    ensures NoDup([a] + t)
  {
    forall i, j | 0 <= i < j < |[a] + t| ensures ([a] + t)[i] != ([a] + t)[j] {
      assert ([a] + t)[j] == t[j - 1];
      if i > 0 {
        assert ([a] + t)[i] == t[i - 1];
      }
    }
  }

  /** Appending an element that is not yet present keeps a sequence free of
      duplicates. */
  lemma {:induction false} AppendFreshNoDup<T>(s: seq<T>, x: T)
    requires NoDup(s) && x !in s
    ensures NoDup(s + [x])
  {
    forall i, j | 0 <= i < j < |s + [x]|
      ensures (s + [x])[i] != (s + [x])[j]
    {
      if j == |s| {
        assert (s + [x])[i] == s[i];
      } else {
        assert (s + [x])[i] == s[i] && (s + [x])[j] == s[j];
      }
    }
  }

  /** Removing an element that was just appended gives the original sequence
      back. */
  lemma {:induction false} RemoveAppended<T>(s: seq<T>, x: T)
    requires x !in s
    ensures RemoveFirst(s + [x], x) == s
  {
    if s != [] {
      assert (s + [x])[1..] == s[1..] + [x];
      RemoveAppended(s[1..], x);
    }
  }
}
