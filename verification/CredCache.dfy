/** The credential cache with a time to live, against the history of its puts. */
module CredCache {
  import opened Wrappers

  datatype Key = Key(item: string, field: string)

  datatype Entry = Entry(value: string, expiresAt: nat)

  /** A put that the cache accepted. */
  datatype Put = Put(key: Key, value: string, at: nat, ttl: nat)
  {
    function ExpiresAt(): nat {
      at + ttl
    }
  }

  /** The last put of a key in an unbounded record that forgets nothing. */
  function LastPut(h: seq<Put>, key: Key): Option<Put> {
    if h == [] then None
    else if h[|h| - 1].key == key then Some(h[|h| - 1])
    else LastPut(h[..|h| - 1], key)
  }

  /** What that record answers at a time: the last put unless it has expired. */
  function Answer(h: seq<Put>, key: Key, now: nat): Option<string> {
    match LastPut(h, key)
    case None => None
    case Some(p) => if p.ExpiresAt() > now then Some(p.value) else None
  }

  /** The `i`-th put is of the key, and no later put of it follows. */
  ghost predicate LatestOf(h: seq<Put>, key: Key, i: nat) {
    i < |h| && h[i].key == key && forall j :: i < j < |h| ==> h[j].key != key
  }

  /** An answer is a put that no later put of the key replaced and that has not expired. */
  lemma {:induction false} AnswerIff(h: seq<Put>, key: Key, now: nat, v: string)
    ensures Answer(h, key, now) == Some(v) <==>
            exists i: nat :: LatestOf(h, key, i) && h[i].value == v && now < h[i].at + h[i].ttl
  {
    LastPutIsLatest(h, key);
    hide LastPut;
    forall i: nat, k: nat | LatestOf(h, key, i) && LatestOf(h, key, k)
      ensures i == k
    {
    }
  }

  lemma {:induction false} LastPutIsLatest(h: seq<Put>, key: Key)
    ensures match LastPut(h, key)
            case None => forall i: nat :: !LatestOf(h, key, i)
            case Some(p) => exists i: nat :: LatestOf(h, key, i) && h[i] == p
  {
    if h != [] {
      var init, last := h[..|h| - 1], |h| - 1;
      if h[last].key == key {
        assert LatestOf(h, key, last);
      } else {
        LastPutIsLatest(init, key);
        assert forall j :: 0 <= j < last ==> h[j] == init[j];
        forall i: nat
          ensures LatestOf(h, key, i) <==> LatestOf(init, key, i)
        {
        }
        if LastPut(init, key).Some? {
          var i: nat :| LatestOf(init, key, i) && init[i] == LastPut(init, key).value;
          assert LatestOf(h, key, i);
        }
      }
    }
  }

  class CredCache {
    var inner: map<Key, Entry>
    const defaultTtl: nat
    ghost var history: seq<Put>
    ghost var clock: nat

    constructor WithTtl(ttl: nat)
      ensures Valid() && defaultTtl == ttl && history == [] && clock == 0
    {
      inner := map[];
      defaultTtl := ttl;
      history := [];
      clock := 0;
    }

    /** Every stored entry is its key's last put; what is missing has expired. */
    ghost predicate Valid()
      reads this
    {
      && (forall k :: k in inner ==>
            && LastPut(history, k).Some?
            && inner[k] == Entry(LastPut(history, k).value.value, LastPut(history, k).value.ExpiresAt()))
      && (forall k :: LastPut(history, k).Some? && k !in inner ==> LastPut(history, k).value.ExpiresAt() <= clock)
    }

    method Get(item: string, field: string, now: nat) returns (r: Option<string>)
      requires Valid() && clock <= now
      modifies this`inner, this`clock
      ensures Valid() && clock == now
      ensures r == Answer(history, Key(item, field), now)
    {
      var key := Key(item, field);
      if key in inner && inner[key].expiresAt <= now {
        inner := inner - {key};
      }
      clock := now;
      if key !in inner {
        return None;
      }
      return Some(inner[key].value);
    }

    method PutEntry(item: string, field: string, value: string, ttl: Option<nat>, now: nat)
      requires Valid() && clock <= now
      modifies this`inner, this`clock, this`history
      ensures Valid() && clock == now
      // ignored exactly when the default TTL is zero and none is given
      ensures history == if defaultTtl == 0 && ttl == None then old(history)
                         else old(history) + [Put(Key(item, field), value, now, ttl.GetOr(defaultTtl))]
    {
      clock := now;
      if defaultTtl == 0 && ttl.None? {
        return;
      }
      var key := Key(item, field);
      var expiresAt := now + ttl.GetOr(defaultTtl);
      inner := inner[key := Entry(value, expiresAt)];
      ghost var p := Put(key, value, now, ttl.GetOr(defaultTtl));
      assert (history + [p])[..|history|] == history;
      history := history + [p];
    }

    method PurgeExpired(now: nat)
      requires Valid() && clock <= now
      modifies this`inner, this`clock
      ensures Valid() && clock == now
      ensures forall k :: k in inner ==> inner[k].expiresAt > now
    {
      inner := map k | k in inner && inner[k].expiresAt > now :: inner[k];
      clock := now;
    }
  }
}
