// Small vocabulary shared by the models: optional values, control characters
// and flattening of a sequence of sequences.
module Options {
  datatype Option<+T> = None | Some(value: T)
}

module Characters {
  // The control characters of Unicode (general category Cc).
  predicate IsControl(c: char) {
    c < ' ' || '\U{7F}' <= c <= '\U{9F}'
  }
}

module Sequences {
  // The concatenation of `parts`, in order.
  function Flatten<T>(parts: seq<seq<T>>): seq<T> {
    if parts == [] then [] else parts[0] + Flatten(parts[1..])
  }

  lemma Associative<T>(a: seq<T>, b: seq<T>, c: seq<T>)
    ensures (a + b) + c == a + (b + c)
  {
  }

  lemma EmptyRight<T>(a: seq<T>)
    ensures a + [] == a
  {
  }

  lemma Cut<T>(s: seq<T>, i: nat, j: nat)
    requires i <= j <= |s|
    ensures s[..i] + s[i..j] + s[j..] == s
    ensures s[..i] + s[i..j] == s[..j]
    ensures s[i..j] + s[j..] == s[i..]
  {
  }

  lemma SliceOfDrop<T>(s: seq<T>, k: nat, i: nat, j: nat)
    requires k <= i <= j <= |s|
    ensures s[k..][i - k..j - k] == s[i..j]
    ensures s[k..][j - k..] == s[j..]
  {
  }

  lemma AppendCut<T>(s: seq<T>, t: seq<T>)
    ensures (s + t)[..|s|] == s && (s + t)[|s|..] == t
  {
  }

  // A nonempty sequence and its head and tail, with one more element behind.
  lemma HeadTail<T>(s: seq<T>, last: T)
    requires s != []
    ensures s == [s[0]] + s[1..] && s + [last] == [s[0]] + (s[1..] + [last])
  {
  }

  lemma {:induction false} FlattenAppend<T>(parts: seq<seq<T>>, more: seq<seq<T>>)
    ensures Flatten(parts + more) == Flatten(parts) + Flatten(more)
  {
    if parts == [] {
      assert parts + more == more;
    } else {
      assert (parts + more)[1..] == parts[1..] + more;
      FlattenAppend(parts[1..], more);
    }
  }

  lemma FlattenOne<T>(part: seq<T>)
    ensures Flatten([part]) == part
  {
    assert [part][1..] == [];
    assert Flatten([part]) == part + [];
  }

  // What stands before `i`, and from `j` on, in a sequence with an ending.
  lemma AroundAppend<T>(s: seq<T>, ending: seq<T>, i: nat, j: nat)
    requires i <= |s| && j <= |s|
    ensures (s + ending)[..i] == s[..i] && (s + ending)[j..] == s[j..] + ending
  {
  }

  lemma FlattenSnoc<T>(parts: seq<seq<T>>, last: seq<T>)
    ensures Flatten(parts + [last]) == Flatten(parts) + last
  {
    FlattenAppend(parts, [last]);
    assert [last][1..] == [];
    assert Flatten([last]) == last;
  }
}
