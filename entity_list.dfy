/**
 Names of the HTML named character references, as the build extracts them
 from the WHATWG entities table into a plain-text list (one name per line).

 Each key of the table ("&amp;", "&amp", ...) loses its leading run of
 ampersands and backslashes and its trailing run of semicolons; the names are
 then written one per line, separated by a single newline.
 */
module EntityList {

  /** One entry of the entities table: the key as written in the table and
      the value it maps to (code points and the characters they spell). */
  datatype Entity = Entity(key: string, codepoints: seq<nat>, characters: string)

  /** Characters stripped from the front of a key: a backslash or an ampersand. */
  predicate IsLeadChar(c: char) {
    c == '&' || c == '\\'
  }

  /** Length of the leading run of lead characters (what `lstrip('\&')` drops). */
  function LeadRun(s: string): (n: nat)
    ensures n <= |s|
    ensures forall k :: 0 <= k < n ==> IsLeadChar(s[k])
    ensures n == |s| || !IsLeadChar(s[n])
  {
    if |s| > 0 && IsLeadChar(s[0]) then 1 + LeadRun(s[1..]) else 0
  }

  /** Length of the trailing run of semicolons (what `rstrip(';')` drops). */
  function TrailRun(s: string): (n: nat)
    ensures n <= |s|
    ensures forall k :: |s| - n <= k < |s| ==> s[k] == ';'
    ensures n == |s| || s[|s| - n - 1] != ';'
  {
    if |s| > 0 && s[|s| - 1] == ';' then 1 + TrailRun(s[..|s| - 1]) else 0
  }

  /** `name` sits in `key` at offset `i`, with only lead characters before it
      and only semicolons after it. */
  ghost predicate StrippedAt(key: string, name: string, i: int) {
    && 0 <= i && i + |name| <= |key|
    && key[i..i + |name|] == name
    && (forall k :: 0 <= k < i ==> IsLeadChar(key[k]))
    && (forall k :: i + |name| <= k < |key| ==> key[k] == ';')
  }

  /** Neither end of `name` could be stripped any further. */
  predicate IsBareName(name: string) {
    name == [] || (!IsLeadChar(name[0]) && name[|name| - 1] != ';')
  }

  /** The name one key of the table yields: the key without its leading run
      of ampersands and backslashes and without its trailing run of semicolons. */
  function NormalizeKey(key: string): (name: string)
    ensures IsBareName(name)
    ensures exists i :: StrippedAt(key, name, i)
  {
    var lead := LeadRun(key);
    var trail := TrailRun(key[lead..]);
    TrailRunInKey(key, lead);
    StrippedAtRuns(key, lead, |key| - trail);
    key[lead..|key| - trail]
  }

  /** The trailing run of the rest of `key` after `lead`, read in `key` itself. */
  lemma TrailRunInKey(key: string, lead: nat)
    requires lead <= |key|
    ensures var stop := |key| - TrailRun(key[lead..]);
      && lead <= stop
      && (forall k :: stop <= k < |key| ==> key[k] == ';')
      && (stop == lead || key[stop - 1] != ';')
  {
    var rest := key[lead..];
    var stop := |key| - TrailRun(rest);
    forall k | stop <= k < |key|
      ensures key[k] == ';'
    {
      assert key[k] == rest[k - lead];
    }
    if stop > lead {
      assert key[stop - 1] == rest[stop - 1 - lead];
    }
  }

  /** What lies between a maximal lead run and a maximal semicolon run is
      stripped at the end of the lead run, and bare. */
  lemma StrippedAtRuns(key: string, lead: nat, stop: nat)
    requires lead <= stop <= |key|
    requires forall k :: 0 <= k < lead ==> IsLeadChar(key[k])
    requires lead == |key| || !IsLeadChar(key[lead])
    requires forall k :: stop <= k < |key| ==> key[k] == ';'
    requires stop == lead || key[stop - 1] != ';'
    ensures StrippedAt(key, key[lead..stop], lead)
    ensures IsBareName(key[lead..stop])
  {
    var name := key[lead..stop];
    if name != [] {
      assert name[0] == key[lead];
      assert name[|name| - 1] == key[stop - 1];
    }
  }

  /** The stripping is determined: any bare infix of `key` framed by a lead run
      and a semicolon run is exactly the name `NormalizeKey` returns, so the
      characters between the two runs are all kept. */
  lemma NormalizeKeyUnique(key: string, name: string, i: int)
    requires StrippedAt(key, name, i) && IsBareName(name)
    ensures NormalizeKey(key) == name
  {
    var n := NormalizeKey(key);
    var j :| StrippedAt(key, n, j);
  }

  /** Normalizing a name that is already normalized changes nothing. */
  lemma NormalizeKeyIdempotent(key: string)
    ensures NormalizeKey(NormalizeKey(key)) == NormalizeKey(key)
  {
    var name := NormalizeKey(key);
    assert StrippedAt(name, name, 0);
    NormalizeKeyUnique(name, name, 0);
  }

  /** Interior semicolons survive; only the end runs go. */
  lemma NormalizeKeyKeepsInterior()
    ensures NormalizeKey("&a;b;") == "a;b"
  {
    assert LeadRun("&a;b;") == 1 && TrailRun("a;b;") == 1;
  }

  /** A key with and without its semicolon gives the same name. */
  lemma NormalizeKeyBothForms()
    ensures NormalizeKey("&amp") == "amp" && NormalizeKey("&amp;") == "amp"
  {
    assert "&amp"[1..4] == "amp" && "&amp;"[1..4] == "amp";
    NormalizeKeyUnique("&amp", "amp", 1);
    NormalizeKeyUnique("&amp;", "amp", 1);
  }

  /** Backslashes and ampersands mix in the leading run; a key made only of
      the two runs gives the empty name. */
  lemma NormalizeKeyWholeRuns()
    ensures NormalizeKey("\\&lt;;") == "lt"
    ensures NormalizeKey("&;") == ""
  {
    assert LeadRun("\\&lt;;") == 2 && TrailRun("lt;;") == 2;
    assert LeadRun("&;") == 1 && TrailRun(";") == 1;
  }

  /** The names of all entries, one per entry and in table order. */
  function EntityNames(entities: seq<Entity>): (names: seq<string>)
    ensures |names| == |entities|
    ensures forall i :: 0 <= i < |names| ==> names[i] == NormalizeKey(entities[i].key)
  {
    if entities == [] then []
    else
      var rest := EntityNames(entities[1..]);
      assert forall i :: 1 <= i < |entities| ==> entities[1..][i - 1] == entities[i];
      [NormalizeKey(entities[0].key)] + rest
  }

  /** The names depend on the keys alone; the values are never looked at. */
  lemma EntityNamesIgnoreValues(a: seq<Entity>, b: seq<Entity>)
    requires |a| == |b|
    requires forall i :: 0 <= i < |a| ==> a[i].key == b[i].key
    ensures EntityNames(a) == EntityNames(b)
  {
  }

  /** No deduplication: a key with and without its semicolon gives the same
      name twice. */
  lemma EntityNamesKeepDuplicates()
    ensures EntityNames([Entity("&amp", [38], "&"), Entity("&amp;", [38], "&")]) == ["amp", "amp"]
  {
    NormalizeKeyBothForms();
  }

  /** A name is part of its key, so a key without a newline gives a name
      without one. */
  lemma NormalizeKeySingleLine(key: string)
    requires '\n' !in key
    ensures '\n' !in NormalizeKey(key)
  {
    var name := NormalizeKey(key);
    var i :| StrippedAt(key, name, i);
    forall k | 0 <= k < |name|
      ensures name[k] != '\n'
    {
      assert name[k] == key[i..i + |name|][k] == key[i + k];
    }
  }

  lemma EntityNamesSingleLine(entities: seq<Entity>)
    requires forall e :: e in entities ==> '\n' !in e.key
    ensures forall n :: n in EntityNames(entities) ==> '\n' !in n
  {
    var names := EntityNames(entities);
    forall i | 0 <= i < |names|
      ensures '\n' !in names[i]
    {
      assert entities[i] in entities;
      NormalizeKeySingleLine(entities[i].key);
    }
  }

  /** Sum of the lengths of the names. */
  function TotalLength(names: seq<string>): nat {
    if names == [] then 0 else TotalLength(names[..|names| - 1]) + |names[|names| - 1]|
  }

  /** The names separated by single newlines, none before the first or after
      the last. */
  function JoinLines(names: seq<string>): (text: string)
    ensures names == [] ==> text == []
    ensures names != [] ==> |text| == TotalLength(names) + |names| - 1
  {
    if |names| == 0 then []
    else if |names| == 1 then names[0]
    else JoinLines(names[..|names| - 1]) + "\n" + names[|names| - 1]
  }

  /** Index of the last newline of `s`, or -1 when there is none. */
  function LastNewline(s: string): (i: int)
    ensures -1 <= i < |s|
    ensures i >= 0 ==> s[i] == '\n'
    ensures forall k :: i < k < |s| ==> s[k] != '\n'
  {
    if |s| == 0 then -1
    else if s[|s| - 1] == '\n' then |s| - 1
    else LastNewline(s[..|s| - 1])
  }

  /** Reading the list back: the text cut at every newline (an empty text is
      one empty line). */
  function SplitLines(text: string): (lines: seq<string>)
    ensures |lines| >= 1
    ensures forall l :: l in lines ==> '\n' !in l
    decreases |text|
  {
    var i := LastNewline(text);
    if i < 0 then [text] else SplitLines(text[..i]) + [text[i + 1..]]
  }

  /** The last newline of `a + "\n" + b` is the one in the middle when `b` has none. */
  lemma LastNewlineOfJoin(a: string, b: string)
    requires '\n' !in b
    ensures LastNewline(a + "\n" + b) == |a|
  {
    var s := a + "\n" + b;
    var i := LastNewline(s);
    assert s[|a|] == '\n';
  }

  /** Splitting the written list at its newlines gives back the names, when
      there is at least one name and none contains a newline. */
  lemma {:induction false} SplitJoinLines(names: seq<string>)
    requires |names| >= 1
    requires forall n :: n in names ==> '\n' !in n
    ensures SplitLines(JoinLines(names)) == names
  {
    if |names| == 1 {
      assert names[0] in names;
    } else {
      var init, last := names[..|names| - 1], names[|names| - 1];
      assert last in names;
      assert forall n :: n in init ==> n in names;
      SplitJoinLines(init);
      SplitLinesOfJoin(JoinLines(init), last);
      assert init + [last] == names;
    }
  }

  /** Splitting `a + "\n" + b` cuts at the newline in the middle when `b` has
      none. */
  lemma SplitLinesOfJoin(a: string, b: string)
    requires '\n' !in b
    ensures SplitLines(a + "\n" + b) == SplitLines(a) + [b]
  {
    var text := a + "\n" + b;
    LastNewlineOfJoin(a, b);
    assert text[..|a|] == a;
    assert text[|a| + 1..] == b;
  }

  /** Joining the lines of any text gives the text back. */
  lemma {:induction false} JoinSplitLines(text: string)
    ensures JoinLines(SplitLines(text)) == text
    decreases |text|
  {
    var i := LastNewline(text);
    if i >= 0 {
      var init, last := SplitLines(text[..i]), text[i + 1..];
      JoinSplitLines(text[..i]);
      assert SplitLines(text) == init + [last];
      JoinLinesAppend(init, last);
      SplitAtNewline(text, i);
    }
  }

  lemma JoinLinesAppend(lines: seq<string>, last: string)
    requires |lines| >= 1
    ensures JoinLines(lines + [last]) == JoinLines(lines) + "\n" + last
  {
    assert (lines + [last])[..|lines|] == lines;
  }

  lemma SplitAtNewline(text: string, i: int)
    requires 0 <= i < |text| && text[i] == '\n'
    ensures text == text[..i] + "\n" + text[i + 1..]
  {
  }

  /** The writer loop: a newline before every name but the first, then the name. */
  method WriteNames(names: seq<string>) returns (text: string)
    ensures text == JoinLines(names)
  {
    text := "";
    for i := 0 to |names|
      invariant text == JoinLines(names[..i])
    {
      if i > 0 {
        text := text + "\n";
      }
      text := text + names[i];
      assert names[..i + 1][..i] == names[..i];
    }
    assert names[..|names|] == names;
  }

  /** The whole extraction: the names of all keys written as a newline-separated
      list, which reads back as those names. */
  method ExtractEntities(entities: seq<Entity>) returns (text: string)
    ensures text == JoinLines(EntityNames(entities))
    ensures entities == [] ==> text == []
    ensures entities != [] && (forall e :: e in entities ==> '\n' !in e.key)
            ==> SplitLines(text) == EntityNames(entities)
  {
    var names := EntityNames(entities);
    text := WriteNames(names);
    if entities != [] && (forall e :: e in entities ==> '\n' !in e.key) {
      EntityNamesSingleLine(entities);
      SplitJoinLines(names);
    }
  }
}
