/**
 sdk/src/merkle_context.rs: accounts of an instruction are referred to by 8-bit indices, which
 are given out in the order in which the accounts are first mentioned.
 */
module MerkleContexts {
  import opened Wrappers

  type Pubkey = nat

  datatype AccountMeta = AccountMeta(pubkey: Pubkey, isSigner: bool, isWritable: bool)

  datatype AddressMerkleContext = AddressMerkleContext(addressMerkleTreePubkey: Pubkey, addressQueuePubkey: Pubkey)

  datatype PackedAddressMerkleContext = PackedAddressMerkleContext(addressMerkleTreePubkeyIndex: nat,
                                                                   addressQueuePubkeyIndex: nat)

  const U8_MAX: nat := 255

  /** The indices of `indexOf` are exactly the positions in `keys`. */
  ghost predicate Bijection(indexOf: map<Pubkey, nat>, keys: seq<Pubkey>) {
    && (forall i: nat {:trigger keys[i]} :: i < |keys| ==> keys[i] in indexOf && indexOf[keys[i]] == i)
    && (forall k {:trigger indexOf[k]} :: k in indexOf ==> indexOf[k] < |keys| && keys[indexOf[k]] == k)
  }

  function Meta(key: Pubkey): AccountMeta {
    AccountMeta(key, false, true)
  }

  class RemainingAccounts {
    var nextIndex: nat
    var indexOf: map<Pubkey, nat>
    /** The accounts in the order of their indices. */
    ghost var keys: seq<Pubkey>

    ghost predicate Valid()
      reads this
    {
      nextIndex == |keys| <= U8_MAX && Bijection(indexOf, keys)
    }

    constructor ()
      ensures Valid() && keys == []
    {
      nextIndex, indexOf, keys := 0, map[], [];
    }

    /** The index of the account, which is appended if it is new; `None` is the overflow on the 256th account. */
    method InsertOrGet(pubkey: Pubkey) returns (r: Option<nat>)
      requires Valid()
      modifies this
      ensures Valid()
      ensures r.None? <==> pubkey !in old(keys) && |old(keys)| == U8_MAX
      ensures r.None? ==> unchanged(this)
      ensures r.Some? ==> keys == if pubkey in old(keys) then old(keys) else old(keys) + [pubkey]
      ensures r.Some? ==> r.value < |keys| && keys[r.value] == pubkey
    {
      if pubkey in indexOf {
        assert keys[indexOf[pubkey]] == pubkey;
        return Some(indexOf[pubkey]);
      }
      if nextIndex + 1 > U8_MAX {
        return None;
      }
      var index := nextIndex;
      nextIndex := nextIndex + 1;
      indexOf := indexOf[pubkey := index];
      keys := keys + [pubkey];
      return Some(index);
    }

    /** Every account at the position of its index, whatever the order in which the hash map yields them. */
    method ToAccountMetas() returns (metas: seq<AccountMeta>)
      requires Valid()
      ensures |metas| == |keys|
      ensures forall i: nat :: i < |keys| ==>
                metas[i].pubkey == keys[i] && !metas[i].isSigner && metas[i].isWritable
    {
      var pending, sorted := indexOf.Keys, [];
      while pending != {}
        invariant pending <= indexOf.Keys && Ascending(sorted) && Listed(keys, pending, sorted)
        decreases |pending|
      {
        var key :| key in pending;
        assert keys[indexOf[key]] == key;
        sorted := SortedInsert(sorted, Entry(Meta(key), indexOf[key]));
        pending := pending - {key};
      }
      SortedIsIdentity(keys, sorted);
      metas := seq(|sorted|, i requires 0 <= i < |sorted| => sorted[i].meta);
    }

    /** Packs one context: first its tree, then its queue. */
    method PackOne(c: AddressMerkleContext) returns (r: Option<PackedAddressMerkleContext>)
      requires Valid()
      modifies this
      ensures Valid() && old(keys) <= keys
      ensures r.Some? <==> |WithBoth(old(keys), c)| <= U8_MAX
      ensures r.Some? ==> keys == WithBoth(old(keys), c) && Locates(keys, c, r.value)
    {
      var tree := InsertOrGet(c.addressMerkleTreePubkey);
      if tree.None? {
        return None;
      }
      var queue := InsertOrGet(c.addressQueuePubkey);
      if queue.None? {
        return None;
      }
      return Some(PackedAddressMerkleContext(tree.value, queue.value));
    }

    /**
     Packs contexts. This succeeds exactly if all accounts together are at most 255; then the
     accounts are those before, followed by the new ones in order of mention, and unpacking gives
     the contexts back.
     */
    method PackAddressMerkleContexts(contexts: seq<AddressMerkleContext>)
      returns (r: Option<seq<PackedAddressMerkleContext>>)
      requires Valid()
      modifies this
      ensures Valid() && old(keys) <= keys
      ensures r.Some? <==> |KeySet(old(keys)) + KeySet(Mentioned(contexts))| <= U8_MAX
      ensures r.Some? ==> keys == Collected(old(keys), Mentioned(contexts))
      ensures r.Some? ==> Unpack(r.value, keys) == Some(contexts)
      ensures r.Some? ==>
                |r.value| == |contexts| &&
                forall i: nat :: i < |contexts| ==>
                  && r.value[i].addressMerkleTreePubkeyIndex < |keys| && r.value[i].addressQueuePubkeyIndex < |keys|
                  && keys[r.value[i].addressMerkleTreePubkeyIndex] == contexts[i].addressMerkleTreePubkey
                  && keys[r.value[i].addressQueuePubkeyIndex] == contexts[i].addressQueuePubkey
    {
      hide Unpack, Bijection, Collected, Mentioned, KeySet, WithBoth, Locates;
      ghost var all := Collected(keys, Mentioned(contexts));
      CollectedCount(keys, indexOf, Mentioned(contexts));
      var packed := [];
      UnpackEmpty(keys);
      assert contexts[0..] == contexts;
      for i := 0 to |contexts|
        invariant Valid() && old(keys) <= keys && Unpack(packed, keys) == Some(contexts[..i])
        invariant Collected(keys, Mentioned(contexts[i..])) == all
        invariant |packed| == i && forall k: nat :: k < i ==> Locates(keys, contexts[k], packed[k])
      {
        ghost var before := keys;
        CollectOne(keys, contexts, i);
        var one := PackOne(contexts[i]);
        if one.None? {
          return None;
        }
        LocatesStays(before, keys, contexts[..i], packed);
        UnpackMore(packed, before, keys, contexts[..i], contexts[i], one.value);
        packed := packed + [one.value];
        assert contexts[..i + 1] == contexts[..i] + [contexts[i]];
      }
      assert contexts[..|contexts|] == contexts;
      CollectNone(keys, contexts[|contexts|..]);
      LocatesMeans(keys, contexts, packed);
      return Some(packed);
    }
  }

  /** An index that was given out leads to its account in the list that is sent, whatever was added in between. */
  method IndexLeadsToAccount(accounts: RemainingAccounts, pubkey: Pubkey, more: seq<Pubkey>)
    returns (index: Option<nat>, metas: seq<AccountMeta>)
    requires accounts.Valid()
    modifies accounts
    ensures index.Some? ==>
              && index.value < |metas| && metas[index.value].pubkey == pubkey
              && !metas[index.value].isSigner && metas[index.value].isWritable
    ensures index.None? <==> pubkey !in old(accounts.keys) && |old(accounts.keys)| == U8_MAX
  {
    index := accounts.InsertOrGet(pubkey);
    ghost var keys := accounts.keys;
    for i := 0 to |more|
      invariant accounts.Valid() && keys <= accounts.keys
    {
      var _ := accounts.InsertOrGet(more[i]);
    }
    metas := accounts.ToAccountMetas();
  }

  // ---------------------------------------------------------------------------
  // Collecting accounts
  // ---------------------------------------------------------------------------

  /** The accounts that contexts mention, in order. */
  function Mentioned(contexts: seq<AddressMerkleContext>): seq<Pubkey> {
    if contexts == [] then []
    else [contexts[0].addressMerkleTreePubkey, contexts[0].addressQueuePubkey] + Mentioned(contexts[1..])
  }

  function WithKey(keys: seq<Pubkey>, key: Pubkey): seq<Pubkey> {
    if key in keys then keys else keys + [key]
  }

  function WithBoth(keys: seq<Pubkey>, c: AddressMerkleContext): seq<Pubkey> {
    WithKey(WithKey(keys, c.addressMerkleTreePubkey), c.addressQueuePubkey)
  }

  /** The accounts of a context are found under the indices of the packed context. */
  ghost predicate Locates(keys: seq<Pubkey>, c: AddressMerkleContext, p: PackedAddressMerkleContext) {
    && p.addressMerkleTreePubkeyIndex < |keys| && keys[p.addressMerkleTreePubkeyIndex] == c.addressMerkleTreePubkey
    && p.addressQueuePubkeyIndex < |keys| && keys[p.addressQueuePubkeyIndex] == c.addressQueuePubkey
  }

  lemma LocatesStays(before: seq<Pubkey>, keys: seq<Pubkey>, contexts: seq<AddressMerkleContext>,
                     packed: seq<PackedAddressMerkleContext>)
    requires before <= keys && |packed| == |contexts|
    requires forall k: nat :: k < |packed| ==> Locates(before, contexts[k], packed[k])
    ensures forall k: nat :: k < |packed| ==> Locates(keys, contexts[k], packed[k])
  {
  }

  lemma LocatesMeans(keys: seq<Pubkey>, contexts: seq<AddressMerkleContext>, packed: seq<PackedAddressMerkleContext>)
    requires |packed| == |contexts| && forall k: nat :: k < |packed| ==> Locates(keys, contexts[k], packed[k])
    ensures forall i: nat :: i < |packed| ==>
              && packed[i].addressMerkleTreePubkeyIndex < |keys| && packed[i].addressQueuePubkeyIndex < |keys|
              && keys[packed[i].addressMerkleTreePubkeyIndex] == contexts[i].addressMerkleTreePubkey
              && keys[packed[i].addressQueuePubkeyIndex] == contexts[i].addressQueuePubkey
  {
  }

  /** The accounts of `keys`, followed by those of `more` that are new, in order of first mention. */
  function Collected(keys: seq<Pubkey>, more: seq<Pubkey>): seq<Pubkey>
    decreases |more|
  {
    if more == [] then keys else Collected(WithKey(keys, more[0]), more[1..])
  }

  ghost function KeySet(keys: seq<Pubkey>): set<Pubkey> {
    set k | k in keys
  }

  ghost predicate Distinct(keys: seq<Pubkey>) {
    forall i: nat, j: nat :: i < j < |keys| ==> keys[i] != keys[j]
  }

  /** Of each context first the tree is mentioned, then the queue. */
  lemma {:induction false} MentionedAt(contexts: seq<AddressMerkleContext>, i: nat)
    requires i < |contexts|
    ensures |Mentioned(contexts)| == 2 * |contexts|
    ensures Mentioned(contexts)[2 * i] == contexts[i].addressMerkleTreePubkey
    ensures Mentioned(contexts)[2 * i + 1] == contexts[i].addressQueuePubkey
  {
    if |contexts| > 1 { MentionedAt(contexts[1..], if i > 0 then i - 1 else 0); }
  }

  /** Each account in its turn is appended unless it is there already. */
  lemma {:induction false} CollectedOrder(keys: seq<Pubkey>, more: seq<Pubkey>, key: Pubkey)
    ensures var before := Collected(keys, more);
            Collected(keys, more + [key]) == if key in before then before else before + [key]
    decreases |more|
  {
    if more == [] {
      assert (more + [key])[1..] == [];
    } else {
      CollectedOrder(WithKey(keys, more[0]), more[1..], key);
      assert (more + [key])[1..] == more[1..] + [key];
    }
  }

  /** Collecting keeps all accounts, keeps them distinct, and adds exactly the new ones. */
  lemma {:induction false} CollectedIs(keys: seq<Pubkey>, more: seq<Pubkey>)
    requires Distinct(keys)
    ensures keys <= Collected(keys, more) && Distinct(Collected(keys, more))
    ensures KeySet(Collected(keys, more)) == KeySet(keys) + KeySet(more)
    decreases |more|
  {
    if more != [] {
      CollectedIs(WithKey(keys, more[0]), more[1..]);
      assert more == [more[0]] + more[1..];
    }
  }

  lemma {:induction false} DistinctCount(keys: seq<Pubkey>)
    requires Distinct(keys)
    ensures |KeySet(keys)| == |keys|
  {
    if keys != [] {
      var n := |keys| - 1;
      DistinctCount(keys[..n]);
      assert keys == keys[..n] + [keys[n]];
      assert KeySet(keys) == KeySet(keys[..n]) + {keys[n]};
      assert keys[n] !in KeySet(keys[..n]);
    }
  }

  /** The accounts collected are as many as there are accounts altogether. */
  lemma CollectedCount(keys: seq<Pubkey>, indexOf: map<Pubkey, nat>, more: seq<Pubkey>)
    requires Bijection(indexOf, keys)
    ensures |Collected(keys, more)| == |KeySet(keys) + KeySet(more)|
  {
    CollectedIs(keys, more);
    DistinctCount(Collected(keys, more));
  }

  /** Collecting the two accounts of one context, one after the other. */
  lemma CollectOne(keys: seq<Pubkey>, contexts: seq<AddressMerkleContext>, i: nat)
    requires i < |contexts|
    ensures var all := Collected(keys, Mentioned(contexts[i..]));
            all == Collected(WithBoth(keys, contexts[i]), Mentioned(contexts[i + 1..])) &&
              |all| >= |WithBoth(keys, contexts[i])|
  {
    var tree, queue := contexts[i].addressMerkleTreePubkey, contexts[i].addressQueuePubkey;
    var rest := Mentioned(contexts[i + 1..]);
    assert contexts[i..][0] == contexts[i] && contexts[i..][1..] == contexts[i + 1..];
    assert ([tree, queue] + rest)[1..] == [queue] + rest && ([queue] + rest)[1..] == rest;
    CollectedGrows(WithBoth(keys, contexts[i]), rest);
  }

  lemma CollectNone(keys: seq<Pubkey>, contexts: seq<AddressMerkleContext>)
    requires contexts == []
    ensures Collected(keys, Mentioned(contexts)) == keys
  {
  }

  lemma {:induction false} CollectedGrows(keys: seq<Pubkey>, more: seq<Pubkey>)
    ensures |Collected(keys, more)| >= |keys|
    decreases |more|
  {
    if more != [] { CollectedGrows(WithKey(keys, more[0]), more[1..]); }
  }

  // ---------------------------------------------------------------------------
  // Unpacking
  // ---------------------------------------------------------------------------

  /** Looks the accounts up again; `None` if an index is out of bounds. */
  function Unpack(packed: seq<PackedAddressMerkleContext>, accounts: seq<Pubkey>): Option<seq<AddressMerkleContext>> {
    if packed == [] then Some([])
    else
      var n := |packed| - 1;
      var x, rest := packed[n], Unpack(packed[..n], accounts);
      if rest.None? || x.addressMerkleTreePubkeyIndex >= |accounts| || x.addressQueuePubkeyIndex >= |accounts| then None
      else Some(rest.value + [AddressMerkleContext(accounts[x.addressMerkleTreePubkeyIndex],
                                                   accounts[x.addressQueuePubkeyIndex])])
  }

  /** Unpacking succeeds exactly if all indices are in bounds, and then yields the accounts at these positions. */
  lemma {:induction false} UnpackIs(packed: seq<PackedAddressMerkleContext>, accounts: seq<Pubkey>)
    ensures var r := Unpack(packed, accounts);
            && (r.Some? <==>
                  forall i: nat :: i < |packed| ==>
                    && packed[i].addressMerkleTreePubkeyIndex < |accounts|
                    && packed[i].addressQueuePubkeyIndex < |accounts|)
            && (r.Some? ==>
                  && |r.value| == |packed|
                  && forall i: nat :: i < |packed| ==>
                       && r.value[i].addressMerkleTreePubkey == accounts[packed[i].addressMerkleTreePubkeyIndex]
                       && r.value[i].addressQueuePubkey == accounts[packed[i].addressQueuePubkeyIndex])
    decreases |packed|
  {
    if packed != [] { UnpackIs(packed[..|packed| - 1], accounts); }
  }

  /** Accounts that are added later do not matter. */
  lemma {:induction false} UnpackStable(packed: seq<PackedAddressMerkleContext>, keys: seq<Pubkey>, more: seq<Pubkey>)
    requires keys <= more && Unpack(packed, keys).Some?
    ensures Unpack(packed, more) == Unpack(packed, keys)
    decreases |packed|
  {
    if packed != [] { UnpackStable(packed[..|packed| - 1], keys, more); }
  }

  lemma UnpackEmpty(keys: seq<Pubkey>)
    ensures Unpack([], keys) == Some([])
  {
  }

  lemma UnpackMore(packed: seq<PackedAddressMerkleContext>, before: seq<Pubkey>, keys: seq<Pubkey>,
                   contexts: seq<AddressMerkleContext>, c: AddressMerkleContext, p: PackedAddressMerkleContext)
    requires before <= keys && Unpack(packed, before) == Some(contexts)
    requires Locates(keys, c, p)
    ensures Unpack(packed + [p], keys) == Some(contexts + [c])
  {
    UnpackStable(packed, before, keys);
    assert (packed + [p])[..|packed|] == packed;
  }

  // ---------------------------------------------------------------------------
  // Sorting by index
  // ---------------------------------------------------------------------------

  datatype Entry = Entry(meta: AccountMeta, index: nat)

  ghost predicate Ascending(s: seq<Entry>) {
    forall i: nat, j: nat :: i < j < |s| ==> s[i].index < s[j].index
  }

  /** `s` lists the accounts that are not pending. */
  ghost predicate Listed(keys: seq<Pubkey>, pending: set<Pubkey>, s: seq<Entry>) {
    && (forall e :: e in s ==> e.index < |keys| && e.meta == Meta(keys[e.index]) && keys[e.index] !in pending)
    && (forall i: nat :: i < |keys| && keys[i] !in pending ==> Entry(Meta(keys[i]), i) in s)
  }

  /** Inserts an entry with a new index in its place. */
  method SortedInsert(s: seq<Entry>, x: Entry) returns (r: seq<Entry>)
    requires Ascending(s) && forall e :: e in s ==> e.index != x.index
    ensures Ascending(r) && forall e :: e in r <==> e == x || e in s
  {
    var k := |s|;
    while k > 0 && s[k - 1].index > x.index
      invariant 0 <= k <= |s| && forall i: nat :: k <= i < |s| ==> s[i].index > x.index
    {
      k := k - 1;
    }
    r := s[..k] + [x] + s[k..];
    InsertedAt(s, x, k, r);
  }

  lemma InsertedAt(s: seq<Entry>, x: Entry, k: nat, r: seq<Entry>)
    requires Ascending(s) && k <= |s| && r == s[..k] + [x] + s[k..]
    requires k > 0 ==> s[k - 1].index < x.index
    requires forall i: nat :: k <= i < |s| ==> s[i].index > x.index
    ensures Ascending(r) && forall e :: e in r <==> e == x || e in s
  {
    forall i: nat | i < k ensures s[i].index < x.index {
      assert i < k - 1 ==> s[i].index < s[k - 1].index;
    }
    AscendingConcat(s[..k], x, s[k..]);
    assert s == s[..k] + s[k..];
  }

  lemma AscendingConcat(a: seq<Entry>, x: Entry, b: seq<Entry>)
    requires Ascending(a) && Ascending(b)
    requires forall i: nat :: i < |a| ==> a[i].index < x.index
    requires forall i: nat :: i < |b| ==> x.index < b[i].index
    ensures Ascending(a + [x] + b)
  {
    var r := a + [x] + b;
    forall i: nat, j: nat | i < j < |r|
      ensures r[i].index < r[j].index
    {
      assert r[i] == if i < |a| then a[i] else if i == |a| then x else b[i - |a| - 1];
      assert r[j] == if j < |a| then a[j] else if j == |a| then x else b[j - |a| - 1];
    }
  }

  /** An ascending list of all indices holds each at its own position. */
  lemma {:induction false} AscendingFrom(keys: seq<Pubkey>, s: seq<Entry>, i: nat)
    requires Ascending(s) && Listed(keys, {}, s) && i <= |keys|
    ensures i <= |s| && forall j: nat :: j < i ==> s[j].index == j
  {
    if i > 0 {
      AscendingFrom(keys, s, i - 1);
      assert Entry(Meta(keys[i - 1]), i - 1) in s;
      var p: nat :| p < |s| && s[p] == Entry(Meta(keys[i - 1]), i - 1);
      assert i >= 2 ==> s[i - 2].index < s[i - 1].index;
    }
  }

  lemma {:induction false} AscendingAtLeast(s: seq<Entry>, i: nat)
    requires Ascending(s) && i < |s|
    ensures s[i].index >= i
  {
    if i > 0 { AscendingAtLeast(s, i - 1); }
  }

  lemma SortedIsIdentity(keys: seq<Pubkey>, s: seq<Entry>)
    requires Ascending(s) && Listed(keys, {}, s)
    ensures |s| == |keys| && forall i: nat :: i < |s| ==> s[i].meta == Meta(keys[i])
  {
    AscendingFrom(keys, s, |keys|);
    if s != [] {
      AscendingAtLeast(s, |s| - 1);
      assert s[|s| - 1] in s;
    }
    forall i: nat | i < |s| ensures s[i].meta == Meta(keys[i]) {
      assert s[i] in s;
    }
  }
}
