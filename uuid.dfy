/**
 * The textual UUID layout used by the bot (main.py, `get_minecraft_uuid`).
 *
 * The identity service answers with a 32-character undashed hexadecimal id;
 * the bot rewrites it into the 8-4-4-4-12 dashed grouping of section 3 of
 * RFC 4122 by five Python slices joined with '-'. Python slicing never
 * fails: an index past the end is clamped, so the rewrite is total on ids of
 * any length, and the model keeps that behaviour.
 */
module UuidFormat {

  function Min(a: nat, b: nat): nat { if a <= b then a else b }

  /** Python's `s[lo:hi]` for non-negative bounds. */
  function Slice(s: string, lo: nat, hi: nat): string
  {
    var a, b := Min(lo, |s|), Min(hi, |s|);
    if b <= a then [] else s[a..b]
  }

  /** Python's `s[lo:]` for a non-negative bound. */
  function From(s: string, lo: nat): string
  {
    s[Min(lo, |s|)..]
  }

  /**
   * The f-string of main.py:31: five slices of `id` separated by '-'.
   * It adds exactly four characters to an id of any length, so the uuid
   * is never empty.
   */
  function Hyphenate(id: string): (h: string)
    ensures |h| == |id| + 4
  {
    SlicesCoverId(id);
    Slice(id, 0, 8) + "-" + Slice(id, 8, 12) + "-" + Slice(id, 12, 16) + "-"
      + Slice(id, 16, 20) + "-" + From(id, 20)
  }

  /** Positions that hold a '-' in the dashed form. */
  predicate IsHyphenIndex(i: int)
  {
    i == 8 || i == 13 || i == 18 || i == 23
  }

  predicate IsHexDigit(c: char)
  {
    ('0' <= c <= '9') || ('a' <= c <= 'f') || ('A' <= c <= 'F')
  }

  /** A 32-digit undashed hexadecimal id, as the identity service returns it. */
  predicate IsUndashedId(id: string)
  {
    |id| == 32 && forall i :: 0 <= i < 32 ==> IsHexDigit(id[i])
  }

  /** The 8-4-4-4-12 dashed layout: hex digits with '-' at 8, 13, 18 and 23. */
  predicate IsDashedUuid(s: string)
  {
    && |s| == 36
    && (forall i :: 0 <= i < 36 && IsHyphenIndex(i) ==> s[i] == '-')
    && (forall i :: 0 <= i < 36 && !IsHyphenIndex(i) ==> IsHexDigit(s[i]))
  }

  /** Removes the four separator positions of a dashed form (the inverse of Hyphenate). */
  function Dehyphenate(s: string): (id: string)
    requires |s| == 36
    ensures |id| == 32
  {
    s[..8] + s[9..13] + s[14..18] + s[19..23] + s[24..]
  }

  /** Deletes every '-' from a string. */
  function StripHyphens(s: string): (r: string)
    ensures '-' !in r
    ensures |r| <= |s|
  {
    if s == [] then []
    else if s[0] == '-' then StripHyphens(s[1..])
    else [s[0]] + StripHyphens(s[1..])
  }

  lemma {:induction false} StripHyphensAppend(a: string, b: string)
    ensures StripHyphens(a + b) == StripHyphens(a) + StripHyphens(b)
  {
    if a == [] {
      assert a + b == b;
    } else {
      assert (a + b)[1..] == a[1..] + b;
      StripHyphensAppend(a[1..], b);
    }
  }

  lemma {:induction false} StripHyphensNoHyphen(s: string)
    requires '-' !in s
    ensures StripHyphens(s) == s
  {
    if s != [] {
      assert s[0] != '-';
      assert '-' !in s[1..] by {
        forall i | 0 <= i < |s[1..]| ensures s[1..][i] != '-' { assert s[1..][i] == s[i + 1]; }
      }
      StripHyphensNoHyphen(s[1..]);
      assert [s[0]] + s[1..] == s;
    }
  }

  /** Adjacent clamped slices join up, whatever the length of `s`. */
  lemma SliceJoin(s: string, a: nat, b: nat, c: nat)
    requires a <= b <= c
    ensures Slice(s, a, b) + Slice(s, b, c) == Slice(s, a, c)
  {
    var a', b', c' := Min(a, |s|), Min(b, |s|), Min(c, |s|);
    if a' < b' && b' < c' {
      assert s[a'..b'] + s[b'..c'] == s[a'..c'];
    }
  }

  lemma SliceFrom(s: string, a: nat, b: nat)
    requires a <= b
    ensures Slice(s, a, b) + From(s, b) == From(s, a)
  {
    var a', b' := Min(a, |s|), Min(b, |s|);
    if a' < b' {
      assert s[a'..b'] + s[b'..] == s[a'..];
    }
  }

  /** The five slices of Hyphenate put back together give the id. */
  lemma SlicesCoverId(id: string)
    ensures Slice(id, 0, 8) + Slice(id, 8, 12) + Slice(id, 12, 16) + Slice(id, 16, 20) + From(id, 20) == id
  {
    SliceJoin(id, 0, 8, 12);
    SliceJoin(id, 0, 12, 16);
    SliceJoin(id, 0, 16, 20);
    SliceFrom(id, 0, 20);
    assert From(id, 0) == id;
  }

  /** For a 32-character id the result has the dashed shape and carries the id's characters in order. */
  lemma HyphenateShape(id: string)
    requires |id| == 32
    ensures var h := Hyphenate(id);
      && |h| == 36
      && h[8] == '-' && h[13] == '-' && h[18] == '-' && h[23] == '-'
      && h[..8] == id[..8] && h[9..13] == id[8..12] && h[14..18] == id[12..16]
      && h[19..23] == id[16..20] && h[24..] == id[20..]
  {
    var h := Hyphenate(id);
    assert h == id[..8] + "-" + id[8..12] + "-" + id[12..16] + "-" + id[16..20] + "-" + id[20..];
  }

  lemma StripHyphensAroundSeparator(a: string, b: string)
    ensures StripHyphens(a + "-" + b) == StripHyphens(a) + StripHyphens(b)
  {
    StripHyphensAppend(a + "-", b);
    StripHyphensAppend(a, "-");
    assert StripHyphens("-") == [];
  }

  /** Deleting the hyphens of the dashed form gives back an id that had none. */
  lemma StripHyphenateRoundTrip(id: string)
    requires '-' !in id
    ensures StripHyphens(Hyphenate(id)) == id
  {
    var p0, p1, p2, p3, p4 := Slice(id, 0, 8), Slice(id, 8, 12), Slice(id, 12, 16), Slice(id, 16, 20), From(id, 20);
    StripHyphensAroundSeparator(p0 + "-" + p1 + "-" + p2 + "-" + p3, p4);
    StripHyphensAroundSeparator(p0 + "-" + p1 + "-" + p2, p3);
    StripHyphensAroundSeparator(p0 + "-" + p1, p2);
    StripHyphensAroundSeparator(p0, p1);
    StripHyphensAppend(p0 + p1 + p2 + p3, p4);
    StripHyphensAppend(p0 + p1 + p2, p3);
    StripHyphensAppend(p0 + p1, p2);
    StripHyphensAppend(p0, p1);
    SlicesCoverId(id);
    StripHyphensNoHyphen(id);
  }

  /** Removing the separator positions undoes Hyphenate on a 32-character id. */
  lemma DehyphenateHyphenate(id: string)
    requires |id| == 32
    ensures Dehyphenate(Hyphenate(id)) == id
  {
    HyphenateShape(id);
    assert id[..8] + id[8..12] + id[12..16] + id[16..20] + id[20..] == id;
  }

  /** Hyphenate undoes the removal of the separators of a dashed form. */
  lemma HyphenateDehyphenate(s: string)
    requires |s| == 36 && s[8] == '-' && s[13] == '-' && s[18] == '-' && s[23] == '-'
    ensures Hyphenate(Dehyphenate(s)) == s
  {
    var id := Dehyphenate(s);
    assert id[..8] == s[..8] && id[8..12] == s[9..13] && id[12..16] == s[14..18];
    assert id[16..20] == s[19..23] && id[20..] == s[24..];
    HyphenateShape(id);
    assert s == s[..8] + "-" + s[9..13] + "-" + s[14..18] + "-" + s[19..23] + "-" + s[24..];
  }

  /** A 32-digit hex id becomes a well-formed dashed UUID, and back. */
  lemma HyphenateIsDashedUuid(id: string)
    requires IsUndashedId(id)
    ensures IsDashedUuid(Hyphenate(id))
    ensures IsUndashedId(Dehyphenate(Hyphenate(id)))
  {
    var h := Hyphenate(id);
    HyphenateShape(id);
    forall i | 0 <= i < 36 && !IsHyphenIndex(i) ensures IsHexDigit(h[i]) {
      if i < 8 { assert h[i] == h[..8][i] == id[i]; }
      else if i < 13 { assert h[i] == h[9..13][i - 9] == id[i - 1]; }
      else if i < 18 { assert h[i] == h[14..18][i - 14] == id[i - 2]; }
      else if i < 23 { assert h[i] == h[19..23][i - 19] == id[i - 3]; }
      else { assert h[i] == h[24..][i - 24] == id[i - 4]; }
    }
    DehyphenateHyphenate(id);
  }

  /** An id given as its five groups is hyphenated group by group. */
  lemma HyphenateGroups(a: string, b: string, c: string, d: string, e: string)
    requires |a| == 8 && |b| == 4 && |c| == 4 && |d| == 4 && |e| == 12
    ensures Hyphenate(a + b + c + d + e) == a + "-" + b + "-" + c + "-" + d + "-" + e
  {
    var id := a + b + c + d + e;
    HyphenateShape(id);
    assert id[..8] == a && id[8..12] == b && id[12..16] == c && id[16..20] == d && id[20..] == e;
  }
}
