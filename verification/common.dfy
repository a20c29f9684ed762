/** Shared vocabulary of the model: optional values, outcomes, bytes and opaque ids. */
module Common {

  /** A value that may be absent; stands for a Java reference that may be null. */
  datatype Option<+T> = None | Some(value: T)

  /** The Java exceptions the modelled code lets escape. */
  datatype Exception = NullPointer | IndexOutOfBounds | IllegalState | IllegalArgument | ParseFailure | BufferUnderflow

  /** The outcome of a call that returns normally or throws. */
  datatype Result<+T> = Ok(value: T) | Thrown(cause: Exception)

  /** A byte as it travels on a socket. */
  type byte = x: int | 0 <= x < 256

  type Bytes = seq<byte>

  /** Opaque identity of a socket channel (and of its selection key). */
  type ChannelId = nat

  /** Opaque identity of a SharingPeer object held by one torrent. */
  type PeerRef = nat

  /** `m'` agrees with `m` on every key but `k`: the same other keys, each with the same value. */
  ghost predicate SameOutside<K(!new), V>(m: map<K, V>, m': map<K, V>, k: K)
  {
    forall c :: c != k ==> (c in m' <==> c in m) && (c in m ==> m'[c] == m[c])
  }

  /** Updating or removing one key changes nothing outside it. */
  lemma UpdateSameOutside<K(!new), V>(m: map<K, V>, k: K, v: V)
    ensures SameOutside(m, m, k)
    ensures SameOutside(m, m[k := v], k)
    ensures SameOutside(m, m - {k}, k)
  {
  }

  /** `s` lists every element of `keys` exactly once: an iteration order over a set. */
  predicate IsOrdering<T>(s: seq<T>, keys: set<T>)
  {
    && (forall i, j :: 0 <= i < j < |s| ==> s[i] != s[j])
    && (forall i :: 0 <= i < |s| ==> s[i] in keys)
    && (forall k :: k in keys ==> k in s)
  }

  /** An iteration order has exactly as many entries as the set. */
  lemma {:induction false} OrderingSize<T>(s: seq<T>, keys: set<T>)
    requires IsOrdering(s, keys)
    ensures |s| == |keys|
    decreases |s|
  {
    if s == [] {
      assert forall k :: k !in keys;
      assert keys == {};
    } else {
      var rest := s[1..];
      assert IsOrdering(rest, keys - {s[0]}) by {
        forall i | 0 <= i < |rest| ensures rest[i] in keys - {s[0]} {
          assert rest[i] == s[i + 1];
        }
        forall k | k in keys - {s[0]} ensures k in rest {
          var i :| 0 <= i < |s| && s[i] == k;
          assert i != 0;
          assert rest[i - 1] == k;
        }
      }
      OrderingSize(rest, keys - {s[0]});
    }
  }
}
