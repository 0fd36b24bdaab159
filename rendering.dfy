/**
 * The reply of the `listwhitelist` command (main.py, `whitelist_list`): a
 * fixed message for an empty list, otherwise a header and one line per
 * entry joined with '\n'. `Split` is a reference reading of such a reply,
 * used to state that the lines are the entries, one each, in order.
 */
module ListRendering {
  import opened AllowList

  const EmptyMessage := "The whitelist is empty!"
  const Header := "**Whitelisted Players:**"

  /** `f"- {player['name']} (UUID: {player['uuid']})"`. */
  function Line(e: Entry): string
  {
    "- " + e.name + " (UUID: " + e.uuid + ")"
  }

  /** The comprehension of main.py:144: one line per entry, in list order. */
  function Lines(s: seq<Entry>): (r: seq<string>)
    ensures |r| == |s|
    ensures forall i :: 0 <= i < |s| ==> r[i] == Line(s[i])
  {
    if s == [] then [] else [Line(s[0])] + Lines(s[1..])
  }

  /** Python's `sep.join(parts)` for a one-character separator. */
  function Join(parts: seq<string>, sep: char): string
  {
    if parts == [] then ""
    else if |parts| == 1 then parts[0]
    else parts[0] + [sep] + Join(parts[1..], sep)
  }

  /** Cuts a string at every `sep`; there is one more piece than separators. */
  function Split(s: string, sep: char): (parts: seq<string>)
    ensures |parts| >= 1
  {
    if s == [] then [""]
    else
      var rest := Split(s[1..], sep);
      if s[0] == sep then [""] + rest else [[s[0]] + rest[0]] + rest[1..]
  }

  /** The reply text of `listwhitelist` for the loaded list. */
  function ListReply(s: seq<Entry>): (r: string)
    ensures r == EmptyMessage <==> s == []
  {
    if s == [] then EmptyMessage
    else Header + "\n" + Join(Lines(s), '\n')
  }

  lemma {:induction false} SplitWithoutSeparator(a: string, sep: char)
    requires sep !in a
    ensures Split(a, sep) == [a]
  {
    if a != [] {
      assert sep !in a[1..] by {
        forall i | 0 <= i < |a[1..]| ensures a[1..][i] != sep { assert a[1..][i] == a[i + 1]; }
      }
      SplitWithoutSeparator(a[1..], sep);
      assert [a[0]] + a[1..] == a;
    }
  }

  lemma {:induction false} SplitAtSeparator(a: string, sep: char, b: string)
    requires sep !in a
    ensures Split(a + [sep] + b, sep) == [a] + Split(b, sep)
  {
    if a == [] {
      assert a + [sep] + b == [sep] + b;
      assert ([sep] + b)[1..] == b;
    } else {
      assert sep !in a[1..] by {
        forall i | 0 <= i < |a[1..]| ensures a[1..][i] != sep { assert a[1..][i] == a[i + 1]; }
      }
      SplitAtSeparator(a[1..], sep, b);
      assert (a + [sep] + b)[1..] == a[1..] + [sep] + b;
      assert [a[0]] + a[1..] == a;
    }
  }

  /** Joining pieces that hold no separator and splitting again gives the pieces back. */
  lemma {:induction false} SplitJoin(parts: seq<string>, sep: char)
    requires |parts| >= 1
    requires forall i :: 0 <= i < |parts| ==> sep !in parts[i]
    ensures Split(Join(parts, sep), sep) == parts
  {
    if |parts| == 1 {
      SplitWithoutSeparator(parts[0], sep);
    } else {
      SplitJoin(parts[1..], sep);
      SplitAtSeparator(parts[0], sep, Join(parts[1..], sep));
      assert [parts[0]] + parts[1..] == parts;
    }
  }

  /** No name or uuid holds a line break, as for every name the identity service issues. */
  ghost predicate SingleLineFields(s: seq<Entry>)
  {
    forall i :: 0 <= i < |s| ==> '\n' !in s[i].name && '\n' !in s[i].uuid
  }

  lemma LineIsSingle(e: Entry)
    requires '\n' !in e.name && '\n' !in e.uuid
    ensures '\n' !in Line(e)
  {
    var l := Line(e);
    forall i | 0 <= i < |l| ensures l[i] != '\n' {
      if i < 2 { } else if i < 2 + |e.name| { assert l[i] == e.name[i - 2]; }
      else if i < 10 + |e.name| { } else if i < 10 + |e.name| + |e.uuid| { assert l[i] == e.uuid[i - 10 - |e.name|]; }
    }
  }

  lemma HeaderIsSingle()
    ensures '\n' !in Header
  {
  }

  /** The reply for a non-empty list, with its first line break made explicit. */
  lemma ListReplyParts(s: seq<Entry>)
    requires s != []
    ensures ListReply(s) == Header + ['\n'] + Join(Lines(s), '\n')
  {
    assert "\n" == ['\n'];
  }

  /**
   * A non-empty list renders as the header followed by exactly one line
   * `- {name} (UUID: {uuid})` per entry, in list order.
   */
  lemma ListReplyLines(s: seq<Entry>)
    requires s != [] && SingleLineFields(s)
    ensures Split(ListReply(s), '\n') == [Header] + Lines(s)
  {
    var ls := Lines(s);
    forall i | 0 <= i < |ls| ensures '\n' !in ls[i] {
      LineIsSingle(s[i]);
    }
    SplitJoin(ls, '\n');
    HeaderIsSingle();
    ListReplyParts(s);
    SplitAtSeparator(Header, '\n', Join(ls, '\n'));
  }
}
