/**
 * The whitelist file's contents and the list rules of the `whitelist` and
 * `unwhitelist` commands (main.py): the duplicate test of `whitelist_add`,
 * the append, and the two filtering comprehensions of `whitelist_remove`.
 */
module AllowList {

  /** One object of whitelist.json: the dashed uuid and the player's name. */
  datatype Entry = Entry(uuid: string, name: string)

  /** At most one entry per uuid: the invariant the duplicate test protects. */
  ghost predicate UniqueUuids(s: seq<Entry>)
  {
    forall i, j :: 0 <= i < j < |s| ==> s[i].uuid != s[j].uuid
  }

  /** `any(player['uuid'] == uuid for player in whitelist)`. */
  function ContainsUuid(s: seq<Entry>, uuid: string): (b: bool)
    ensures b <==> exists i :: 0 <= i < |s| && s[i].uuid == uuid
  {
    if s == [] then false
    else s[0].uuid == uuid || ContainsUuid(s[1..], uuid)
  }

  /**
   * The list `whitelist_add` saves, or leaves alone when the uuid is
   * already present: the old entries stay in front, unchanged and in order;
   * at most one entry is added, exactly when the uuid was missing; and the
   * uuid is listed afterwards.
   */
  function AddEntry(s: seq<Entry>, e: Entry): (r: seq<Entry>)
    ensures |s| <= |r| <= |s| + 1 && r[..|s|] == s
    ensures |r| == |s| <==> ContainsUuid(s, e.uuid)
    ensures |r| == |s| + 1 ==> r[|s|] == e
    ensures ContainsUuid(r, e.uuid)
  {
    assert ContainsUuid(s, e.uuid) || (s + [e])[|s|].uuid == e.uuid;
    if ContainsUuid(s, e.uuid) then s else s + [e]
  }

  /** Adding a uuid that is present changes nothing. */
  lemma AddPresentIsNoOp(s: seq<Entry>, e: Entry, i: nat)
    requires i < |s| && s[i].uuid == e.uuid
    ensures AddEntry(s, e) == s
  {
  }

  /** Adding a new uuid appends exactly that one entry after the unchanged old ones. */
  lemma AddAbsentAppends(s: seq<Entry>, e: Entry)
    requires forall i :: 0 <= i < |s| ==> s[i].uuid != e.uuid
    ensures var r := AddEntry(s, e);
      |r| == |s| + 1 && r[..|s|] == s && r[|s|] == e
  {
  }

  /** Adding twice by the same uuid is adding once, whatever name the second call carries. */
  lemma {:induction false} AddIdempotent(s: seq<Entry>, e: Entry, name: string)
    ensures AddEntry(AddEntry(s, e), Entry(e.uuid, name)) == AddEntry(s, e)
  {
    var r := AddEntry(s, e);
    if !ContainsUuid(s, e.uuid) {
      assert r[|s|].uuid == e.uuid;
    }
    assert ContainsUuid(r, e.uuid);
  }

  /** Add keeps the uniqueness invariant, and afterwards exactly one entry carries the uuid. */
  lemma AddKeepsUnique(s: seq<Entry>, e: Entry)
    requires UniqueUuids(s)
    ensures UniqueUuids(AddEntry(s, e))
    ensures exists i :: 0 <= i < |AddEntry(s, e)| && AddEntry(s, e)[i].uuid == e.uuid
  {
    var r := AddEntry(s, e);
    if !ContainsUuid(s, e.uuid) {
      assert r[|s|].uuid == e.uuid;
      forall i, j | 0 <= i < j < |r| ensures r[i].uuid != r[j].uuid {
        if j == |s| { assert r[i] == s[i]; } else { assert r[i] == s[i] && r[j] == s[j]; }
      }
    }
  }

  // ---------------------------------------------------------------------
  // Case-insensitive names

  /** ASCII lower case of one character; other characters are unchanged. */
  function LowerChar(c: char): char
  {
    if 'A' <= c <= 'Z' then (c as int - 'A' as int + 'a' as int) as char else c
  }

  /** An ASCII stand-in for Python's `str.lower()`. */
  function Lower(s: string): (r: string)
    ensures |r| == |s|
    ensures forall i :: 0 <= i < |s| ==> r[i] == LowerChar(s[i])
  {
    if s == [] then [] else [LowerChar(s[0])] + Lower(s[1..])
  }

  lemma LowerIdempotent(s: string)
    ensures Lower(Lower(s)) == Lower(s)
  {
    var l := Lower(s);
    assert forall i :: 0 <= i < |l| ==> LowerChar(l[i]) == l[i];
  }

  /** Two names match case-insensitively exactly when they agree letter by letter up to case. */
  lemma {:induction false} LowerEqualIff(a: string, b: string)
    ensures Lower(a) == Lower(b) <==> |a| == |b| && forall i :: 0 <= i < |a| ==> LowerChar(a[i]) == LowerChar(b[i])
  {
    if |a| == |b| && forall i :: 0 <= i < |a| ==> LowerChar(a[i]) == LowerChar(b[i]) {
      assert forall i :: 0 <= i < |a| ==> Lower(a)[i] == Lower(b)[i];
    }
  }

  // ---------------------------------------------------------------------
  // Removal

  /** What `whitelist_remove` filters out: one uuid, or one name regardless of case. */
  datatype Criterion = ByUuid(uuid: string) | ByName(name: string)

  predicate Matches(e: Entry, c: Criterion)
  {
    match c
    case ByUuid(u) => e.uuid == u
    case ByName(n) => Lower(e.name) == Lower(n)
  }

  /**
   * The comprehension `[player for player in whitelist if not matches]`.
   * The result holds exactly the non-matching entries, never grows, and has
   * the input's length exactly when nothing matched.
   */
  function RemoveMatching(s: seq<Entry>, c: Criterion): (r: seq<Entry>)
    ensures forall i :: 0 <= i < |r| ==> !Matches(r[i], c)
    ensures |r| <= |s|
    ensures |r| == |s| <==> forall i :: 0 <= i < |s| ==> !Matches(s[i], c)
  {
    if s == [] then []
    else if Matches(s[0], c) then RemoveMatching(s[1..], c)
    else [s[0]] + RemoveMatching(s[1..], c)
  }

  /** The entries a removal takes out: the matching ones, in order. */
  function Matching(s: seq<Entry>, c: Criterion): (r: seq<Entry>)
    ensures forall i :: 0 <= i < |r| ==> Matches(r[i], c)
    ensures |r| == 0 <==> forall i :: 0 <= i < |s| ==> !Matches(s[i], c)
  {
    if s == [] then []
    else if Matches(s[0], c) then [s[0]] + Matching(s[1..], c)
    else Matching(s[1..], c)
  }

  /** An entry survives a removal exactly when it was listed and does not match. */
  lemma {:induction false} RemoveMembership(s: seq<Entry>, c: Criterion)
    ensures forall e :: e in RemoveMatching(s, c) <==> e in s && !Matches(e, c)
  {
    if s != [] {
      RemoveMembership(s[1..], c);
      assert s == [s[0]] + s[1..];
    }
  }

  /** An entry is removed exactly when it was listed and matches. */
  lemma {:induction false} MatchingMembership(s: seq<Entry>, c: Criterion)
    ensures forall e :: e in Matching(s, c) <==> e in s && Matches(e, c)
  {
    if s != [] {
      MatchingMembership(s[1..], c);
      assert s == [s[0]] + s[1..];
    }
  }

  /** `t` is obtained from `s` by deleting some entries; the rest keep their order. */
  ghost predicate IsSubsequence(t: seq<Entry>, s: seq<Entry>)
    decreases |s|
  {
    if t == [] then true
    else if s == [] then false
    else (t[0] == s[0] && IsSubsequence(t[1..], s[1..])) || IsSubsequence(t, s[1..])
  }

  /** Removal keeps the surviving entries in their original relative order. */
  lemma {:induction false} RemoveIsSubsequence(s: seq<Entry>, c: Criterion)
    ensures IsSubsequence(RemoveMatching(s, c), s)
  {
    if s != [] {
      RemoveIsSubsequence(s[1..], c);
      var r := RemoveMatching(s, c);
      if !Matches(s[0], c) {
        assert r[0] == s[0] && r[1..] == RemoveMatching(s[1..], c);
      }
    }
  }

  /** Removal splits the list: what stays plus what is removed is the whole list, counted with repetition. */
  lemma {:induction false} RemovePartition(s: seq<Entry>, c: Criterion)
    ensures multiset(RemoveMatching(s, c)) + multiset(Matching(s, c)) == multiset(s)
  {
    if s != [] {
      RemovePartition(s[1..], c);
      assert s == [s[0]] + s[1..];
      assert multiset(s) == multiset{s[0]} + multiset(s[1..]);
      var r, m := RemoveMatching(s[1..], c), Matching(s[1..], c);
      if Matches(s[0], c) {
        assert Matching(s, c) == [s[0]] + m;
        assert multiset([s[0]] + m) == multiset{s[0]} + multiset(m);
      } else {
        assert RemoveMatching(s, c) == [s[0]] + r;
        assert multiset([s[0]] + r) == multiset{s[0]} + multiset(r);
      }
    }
  }

  /** Removal distributes over concatenation. */
  lemma {:induction false} RemoveAppend(a: seq<Entry>, b: seq<Entry>, c: Criterion)
    ensures RemoveMatching(a + b, c) == RemoveMatching(a, c) + RemoveMatching(b, c)
  {
    if a == [] {
      assert a + b == b;
    } else {
      var ab := a + b;
      assert ab[0] == a[0];
      assert ab[1..] == a[1..] + b;
      RemoveAppend(a[1..], b, c);
    }
  }

  /** When nothing matches, removal leaves the list as it was. */
  lemma {:induction false} RemoveNothing(s: seq<Entry>, c: Criterion)
    requires forall i :: 0 <= i < |s| ==> !Matches(s[i], c)
    ensures RemoveMatching(s, c) == s
  {
    if s != [] {
      RemoveNothing(s[1..], c);
      assert [s[0]] + s[1..] == s;
    }
  }

  /** A removal keeps the uniqueness invariant. */
  lemma {:induction false} RemoveKeepsUnique(s: seq<Entry>, c: Criterion)
    requires UniqueUuids(s)
    ensures UniqueUuids(RemoveMatching(s, c))
  {
    if s != [] {
      assert UniqueUuids(s[1..]) by {
        forall i, j | 0 <= i < j < |s[1..]| ensures s[1..][i].uuid != s[1..][j].uuid {
          assert s[1..][i] == s[i + 1] && s[1..][j] == s[j + 1];
        }
      }
      RemoveKeepsUnique(s[1..], c);
      RemoveMembership(s[1..], c);
      var rest := RemoveMatching(s[1..], c);
      if !Matches(s[0], c) {
        var r := [s[0]] + rest;
        forall i, j | 0 <= i < j < |r| ensures r[i].uuid != r[j].uuid {
          if i == 0 {
            assert r[j] in s[1..];
            var k :| 0 <= k < |s[1..]| && s[1..][k] == r[j];
            assert s[k + 1] == r[j];
          } else {
            assert r[i] == rest[i - 1] && r[j] == rest[j - 1];
          }
        }
      }
    }
  }

  /** Add then remove by the same uuid restores a list that lacked it (the add/remove round trip). */
  lemma RemoveUndoesAdd(s: seq<Entry>, e: Entry)
    requires !ContainsUuid(s, e.uuid)
    ensures RemoveMatching(AddEntry(s, e), ByUuid(e.uuid)) == s
  {
    RemoveAppend(s, [e], ByUuid(e.uuid));
    RemoveNothing(s, ByUuid(e.uuid));
  }
}
