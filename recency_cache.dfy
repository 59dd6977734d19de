/**
 * The local record `_setVariables` of VoiceAttackVariables, as a value: a
 * sequence of (tagged key, text) pairs, most recent first, with no key twice.
 * `Upsert` is what `SetVariable` does to it and `Cleared` what
 * `ClearStartingWith` does to it.
 */
module RecencyCache {
  import opened Wrappers
  import opened Text
  import opened Kinds

  /** One cached set: the tagged key and the text of the value. */
  type Entry = (string, string)

  function Keys(c: seq<Entry>): (keys: seq<string>)
    ensures |keys| == |c| && forall i :: 0 <= i < |c| ==> keys[i] == c[i].0
  {
    if c == [] then [] else [c[0].0] + Keys(c[1..])
  }

  /** No two entries share a key. */
  predicate UniqueKeys(c: seq<Entry>) {
    forall i, j :: 0 <= i < j < |c| ==> c[i].0 != c[j].0
  }

  /** The text recorded under `key`, if any: the first entry with that key. */
  function Lookup(c: seq<Entry>, key: string): (r: Option<string>)
    ensures r.Some? <==> key in Keys(c)
  {
    if c == [] then None
    else if c[0].0 == key then Some(c[0].1)
    else
      var r := Lookup(c[1..], key);
      assert Keys(c) == [c[0].0] + Keys(c[1..]);
      r
  }

  /**
   * `a` is `b` with some entries left out, the rest in their order in `b`.
   */
  predicate IsSubsequence(a: seq<Entry>, b: seq<Entry>) {
    a == [] || (b != [] && ((a[0] == b[0] && IsSubsequence(a[1..], b[1..])) || IsSubsequence(a, b[1..])))
  }

  /** Every entry of a subsequence is an entry of the whole. */
  lemma {:induction false} SubsequenceMembers(a: seq<Entry>, b: seq<Entry>)
    requires IsSubsequence(a, b)
    ensures forall e :: e in a ==> e in b
  {
    if a != [] {
      if a[0] == b[0] && IsSubsequence(a[1..], b[1..]) {
        SubsequenceMembers(a[1..], b[1..]);
        assert forall e :: e in a ==> e == a[0] || e in a[1..];
      } else {
        SubsequenceMembers(a, b[1..]);
      }
    }
  }

  /** Leaving entries out cannot make two keys equal. */
  lemma {:induction false} SubsequenceUnique(a: seq<Entry>, b: seq<Entry>)
    requires IsSubsequence(a, b) && UniqueKeys(b)
    ensures UniqueKeys(a)
  {
    if a != [] {
      if b != [] { UniqueTail(b); }
      if a[0] == b[0] && IsSubsequence(a[1..], b[1..]) {
        SubsequenceUnique(a[1..], b[1..]);
        SubsequenceMembers(a[1..], b[1..]);
        forall j | 0 < j < |a| ensures a[0].0 != a[j].0 {
          assert a[j] == a[1..][j - 1];
          assert a[j] in b[1..];
          var k :| 0 <= k < |b| - 1 && b[1..][k] == a[j];
          assert b[k + 1] == a[j];
        }
        forall i, j | 0 < i < j < |a| ensures a[i].0 != a[j].0 {
          assert a[i] == a[1..][i - 1] && a[j] == a[1..][j - 1];
        }
      } else {
        SubsequenceUnique(a, b[1..]);
      }
    }
  }

  // ---------------------------------------------------------------- SetVariable

  /** `c` without the entry filed under `key`, the others in their order. */
  function RemoveKey(c: seq<Entry>, key: string): (r: seq<Entry>)
    ensures key !in Keys(r)
    ensures forall e :: e in r <==> e in c && e.0 != key
    ensures key !in Keys(c) ==> r == c
  {
    if c == [] then []
    else
      var rest := RemoveKey(c[1..], key);
      assert forall e :: e in c <==> e == c[0] || e in c[1..];
      assert Keys(c) == [c[0].0] + Keys(c[1..]);
      if c[0].0 == key then rest
      else
        var r := [c[0]] + rest;
        assert Keys(r) == [c[0].0] + Keys(rest);
        r
  }

  /** What `RemoveKey` keeps stays in its order. */
  lemma {:induction false} RemoveKeyIsSubsequence(c: seq<Entry>, key: string)
    ensures IsSubsequence(RemoveKey(c, key), c)
  {
    if c != [] {
      RemoveKeyIsSubsequence(c[1..], key);
      var rest := RemoveKey(c[1..], key);
      if c[0].0 != key {
        assert ([c[0]] + rest)[1..] == rest;
      }
    }
  }

  /**
   * `SetVariable(key, value)`: any entry filed under `key` removed, then the
   * new entry put in front.
   */
  function Upsert(c: seq<Entry>, key: string, value: string): (r: seq<Entry>)
    ensures |r| >= 1 && r[0] == (key, value)
    ensures key !in Keys(r[1..])
    ensures Lookup(r, key) == Some(value)
  {
    [(key, value)] + RemoveKey(c, key)
  }

  /** Upserting keeps keys unique. */
  lemma UpsertKeepsKeysUnique(c: seq<Entry>, key: string, value: string)
    requires UniqueKeys(c)
    ensures UniqueKeys(Upsert(c, key, value))
  {
    var rest := RemoveKey(c, key);
    RemoveKeyIsSubsequence(c, key);
    SubsequenceUnique(rest, c);
    UniqueCons((key, value), rest);
  }

  /** An entry whose key is not among the others can go in front of them. */
  lemma UniqueCons(e: Entry, c: seq<Entry>)
    requires UniqueKeys(c) && e.0 !in Keys(c)
    ensures UniqueKeys([e] + c)
  {
    var u := [e] + c;
    forall i, j | 0 <= i < j < |u| ensures u[i].0 != u[j].0 {
      assert u[j] == c[j - 1];
      if i > 0 {
        assert u[i] == c[i - 1];
      } else {
        assert Keys(c)[j - 1] == c[j - 1].0;
      }
    }
  }

  /**
   * The new entry is in front; behind it come the old entries except the
   * one under `key`, in their old order.
   */
  lemma UpsertFront(c: seq<Entry>, key: string, value: string)
    ensures Upsert(c, key, value)[0] == (key, value)
    ensures var rest := Upsert(c, key, value)[1..];
            IsSubsequence(rest, c) && key !in Keys(rest)
            && forall e :: e in rest <==> e in c && e.0 != key
  {
    assert Upsert(c, key, value)[1..] == RemoveKey(c, key);
    RemoveKeyIsSubsequence(c, key);
  }

  /** With unique keys, exactly one entry is under `key`; removing it shortens by one. */
  lemma {:induction false} RemoveKeyLength(c: seq<Entry>, key: string)
    requires UniqueKeys(c)
    ensures |RemoveKey(c, key)| == if key in Keys(c) then |c| - 1 else |c|
  {
    if c != [] {
      assert Keys(c) == [c[0].0] + Keys(c[1..]);
      UniqueTail(c);
      RemoveKeyLength(c[1..], key);
      UniqueHead(c);
    }
  }

  /** The cache grows by one exactly when the key was not there. */
  lemma UpsertLength(c: seq<Entry>, key: string, value: string)
    requires UniqueKeys(c)
    ensures |Upsert(c, key, value)| == if key in Keys(c) then |c| else |c| + 1
  {
    RemoveKeyLength(c, key);
  }

  /** Removing `key` leaves what is filed under every other key as it was. */
  lemma {:induction false} LookupRemoveKey(c: seq<Entry>, key: string, other: string)
    requires other != key
    ensures Lookup(RemoveKey(c, key), other) == Lookup(c, other)
  {
    if c != [] {
      LookupRemoveKey(c[1..], key, other);
      if c[0].0 != key {
        assert ([c[0]] + RemoveKey(c[1..], key))[1..] == RemoveKey(c[1..], key);
      }
    }
  }

  /** After an upsert, `key` gives the new text and every other key what it gave before. */
  lemma LookupUpsert(c: seq<Entry>, key: string, value: string, other: string)
    ensures Lookup(Upsert(c, key, value), other) == if other == key then Some(value) else Lookup(c, other)
  {
    if other != key {
      LookupRemoveKey(c, key, other);
      assert Upsert(c, key, value)[1..] == RemoveKey(c, key);
    }
  }

  /** Setting the same key twice leaves one entry, in front, with the later text. */
  lemma UpsertTwice(c: seq<Entry>, key: string, value1: string, value2: string)
    ensures Upsert(Upsert(c, key, value1), key, value2) == Upsert(c, key, value2)
  {
    var once := Upsert(c, key, value1);
    assert once[1..] == RemoveKey(c, key);
    assert RemoveKey(once, key) == RemoveKey(RemoveKey(c, key), key);
  }

  /** `List.RemoveAt(index)`: the entries before `index`, then the ones after it. */
  function RemoveAt(c: seq<Entry>, index: nat): (r: seq<Entry>)
    requires index < |c|
    ensures |r| == |c| - 1
    ensures forall i :: 0 <= i < index ==> r[i] == c[i]
    ensures forall i :: index <= i < |r| ==> r[i] == c[i + 1]
  {
    c[..index] + c[index + 1..]
  }

  /**
   * An entry at a found index of a cache with unique keys: cutting it out
   * (`RemoveAt`) is removing its key.
   */
  lemma {:induction false} RemoveAtIsRemoveKey(c: seq<Entry>, index: nat, key: string)
    requires UniqueKeys(c) && index < |c| && c[index].0 == key
    ensures RemoveAt(c, index) == RemoveKey(c, key)
  {
    if index == 0 {
      RemoveKeyHead(c, key);
      RemoveAtHead(c);
    } else {
      assert c[0].0 != c[index].0;
      UniqueTail(c);
      RemoveAtIsRemoveKey(c[1..], index - 1, key);
      RemoveAtStep(c, index);
      assert RemoveKey(c, key) == [c[0]] + RemoveKey(c[1..], key);
    }
  }

  /** Cutting out the first entry leaves the tail. */
  lemma RemoveAtHead(c: seq<Entry>)
    requires c != []
    ensures RemoveAt(c, 0) == c[1..]
  {
    var r := RemoveAt(c, 0);
    forall i | 0 <= i < |r| ensures r[i] == c[1..][i] { }
  }

  /** Cutting out a later entry keeps the first one in front of the cut tail. */
  lemma RemoveAtStep(c: seq<Entry>, index: nat)
    requires 0 < index < |c|
    ensures RemoveAt(c, index) == [c[0]] + RemoveAt(c[1..], index - 1)
  {
    var r, t := RemoveAt(c, index), RemoveAt(c[1..], index - 1);
    forall i | 0 <= i < |r| ensures r[i] == ([c[0]] + t)[i] {
      if i > 0 {
        assert ([c[0]] + t)[i] == t[i - 1];
      }
    }
  }

  /** The key of the first entry is removed by dropping that entry alone. */
  lemma RemoveKeyHead(c: seq<Entry>, key: string)
    requires UniqueKeys(c) && c != [] && c[0].0 == key
    ensures RemoveKey(c, key) == c[1..]
  {
    UniqueHead(c);
    assert RemoveKey(c, key) == RemoveKey(c[1..], key);
  }

  lemma UniqueTail(c: seq<Entry>)
    requires UniqueKeys(c) && c != []
    ensures UniqueKeys(c[1..])
  {
    forall i, j | 0 <= i < j < |c| - 1 ensures c[1..][i].0 != c[1..][j].0 {
      assert c[1..][i] == c[i + 1] && c[1..][j] == c[j + 1];
    }
  }

  lemma UniqueHead(c: seq<Entry>)
    requires UniqueKeys(c) && c != []
    ensures c[0].0 !in Keys(c[1..])
  {
    forall i | 0 <= i < |c| - 1 ensures Keys(c[1..])[i] != c[0].0 {
      assert c[1..][i] == c[i + 1];
    }
  }

  // ---------------------------------------------------------------- ClearStartingWith

  /** Every key has a colon, so `Split(':')[1]` exists for each. */
  predicate AllHaveColon(c: seq<Entry>) {
    forall i :: 0 <= i < |c| ==> ':' in c[i].0
  }

  /**
   * The test of `ClearStartingWith`: `key.Split(':')[1].StartsWith(prefix)`,
   * that is, the text after the first colon starts with the prefix and the
   * prefix has no colon of its own.
   */
  predicate SegmentStartsWith(key: string, prefix: string)
    requires ':' in key
    ensures SegmentStartsWith(key, prefix)
        <==> StartsWith(key[IndexOf(key, ':') + 1..], prefix) && ':' !in prefix
  {
    SplitHasSecondPiece(key, ':');
    SecondPiece(key, ':');
    PrefixOfFirstPiece(key[IndexOf(key, ':') + 1..], ':', prefix);
    StartsWith(Split(key, ':')[1], prefix)
  }

  /** `ClearStartingWith(prefix)`: the entries whose segment does not start with `prefix`, in their order. */
  function Cleared(c: seq<Entry>, prefix: string): (r: seq<Entry>)
    requires AllHaveColon(c)
    ensures AllHaveColon(r)
    ensures forall i :: 0 <= i < |r| ==> !SegmentStartsWith(r[i].0, prefix)
    ensures forall e :: e in c && !SegmentStartsWith(e.0, prefix) ==> e in r
    ensures IsSubsequence(r, c)
  {
    if c == [] then []
    else
      var rest := Cleared(c[1..], prefix);
      assert forall e :: e in c <==> e == c[0] || e in c[1..];
      if SegmentStartsWith(c[0].0, prefix) then
        assert IsSubsequence(rest, c) by {
          if rest != [] {
            assert IsSubsequence(rest, c[1..]);
          }
        }
        rest
      else
        var r := [c[0]] + rest;
        assert r[1..] == rest;
        r
  }

  /** Clearing keeps keys unique. */
  lemma ClearedKeepsKeysUnique(c: seq<Entry>, prefix: string)
    requires AllHaveColon(c) && UniqueKeys(c)
    ensures UniqueKeys(Cleared(c, prefix))
  {
    SubsequenceUnique(Cleared(c, prefix), c);
  }

  /** Every segment starts with the empty string: clearing with "" empties the cache. */
  lemma ClearedEmptyPrefix(c: seq<Entry>)
    requires AllHaveColon(c)
    ensures Cleared(c, "") == []
  {
    var r := Cleared(c, "");
    if r != [] {
      SplitHasSecondPiece(r[0].0, ':');
      assert StartsWith(Split(r[0].0, ':')[1], "");
    }
  }

  /** Clearing twice with the same prefix clears nothing more. */
  lemma {:induction false} ClearedIdempotent(c: seq<Entry>, prefix: string)
    requires AllHaveColon(c)
    ensures Cleared(Cleared(c, prefix), prefix) == Cleared(c, prefix)
  {
    if c != [] {
      ClearedIdempotent(c[1..], prefix);
      var rest := Cleared(c[1..], prefix);
      if !SegmentStartsWith(c[0].0, prefix) {
        assert ([c[0]] + rest)[1..] == rest;
      }
    }
  }

  /**
   * For a tagged key whose name has no colon, the segment is the name and
   * its closing brace: the entry is cleared when the name starts with the
   * prefix, and also when the prefix is the whole name followed by `}`.
   */
  lemma SegmentOfPlainName(kind: VariableKind, name: string, prefix: string)
    requires ':' !in name
    ensures ':' in TaggedKey(kind, name)
    ensures SegmentStartsWith(TaggedKey(kind, name), prefix)
        <==> StartsWith(name, prefix) || prefix == name + "}"
  {
    NameSegmentOfTaggedKey(kind, name);
    assert SegmentStartsWith(TaggedKey(kind, name), prefix) <==> StartsWith(name + "}", prefix);
    PrefixOfClosedName(name, prefix);
  }

  /** A prefix of a name closed by `}` is a prefix of the name or the whole closed name. */
  lemma PrefixOfClosedName(name: string, prefix: string)
    ensures StartsWith(name + "}", prefix) <==> StartsWith(name, prefix) || prefix == name + "}"
  {
    var segment := name + "}";
    if |prefix| <= |name| {
      assert segment[..|prefix|] == name[..|prefix|];
    }
  }

  /**
   * For a tagged key whose name has a colon, the segment stops at it: only
   * the part of the name before its first colon is tested.
   */
  lemma SegmentOfColonName(kind: VariableKind, name: string, prefix: string)
    requires ':' in name
    ensures ':' in TaggedKey(kind, name)
    ensures SegmentStartsWith(TaggedKey(kind, name), prefix)
        <==> StartsWith(name[..IndexOf(name, ':')], prefix)
  {
    NameSegmentOfTaggedKey(kind, name);
  }
}
