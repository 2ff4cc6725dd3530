/** Groups of an INI file in the order of their first appearance, and the choice of a group by wildcard. */
module IniFile {

  // ---------- what a pattern means ----------

  /** What one pattern character stands for: '*' any string, '?' any character but '.', others themselves. */
  predicate Fits(p: char, part: string) {
    if p == '*' then true
    else |part| == 1 && if p == '?' then part[0] != '.' else part[0] == p
  }

  /** cuts divides str into one part for each pattern character. */
  ghost predicate Divides(pattern: string, str: string, cuts: seq<nat>) {
    && |cuts| == |pattern| + 1 && cuts[0] == 0 && cuts[|pattern|] == |str|
    && (forall i :: 0 <= i < |pattern| ==> PartFits(pattern, str, cuts, i))
  }

  ghost predicate PartFits(pattern: string, str: string, cuts: seq<nat>, i: nat)
    requires i < |pattern| && |cuts| == |pattern| + 1
  {
    cuts[i] <= cuts[i + 1] <= |str| && Fits(pattern[i], str[cuts[i]..cuts[i + 1]])
  }

  /** The pattern matches if the string can be divided into parts that fit. */
  ghost predicate Matches(pattern: string, str: string) {
    exists cuts: seq<nat> :: Divides(pattern, str, cuts)
  }

  // ---------- how a match begins ----------

  lemma EmptyPattern(str: string)
    ensures Matches("", str) <==> str == ""
  {
    if str == "" {
      assert Divides("", str, [0]);
    }
  }

  /** A match of p + rest begins with a part for p. */
  lemma MatchSplits(pattern: string, str: string) returns (k: nat)
    requires pattern != "" && Matches(pattern, str)
    ensures k <= |str| && Fits(pattern[0], str[..k]) && Matches(pattern[1..], str[k..])
  {
    var cuts :| Divides(pattern, str, cuts);
    assert PartFits(pattern, str, cuts, 0);
    k := cuts[1];
    CutsGrow(pattern, str, cuts, 1);
    var later := seq(|pattern|, i requires 0 <= i < |pattern| => if cuts[i + 1] >= k then (cuts[i + 1] - k) as nat else 0);
    assert str[0..k] == str[..k];
    forall i | 0 <= i < |pattern| - 1 ensures PartFits(pattern[1..], str[k..], later, i) {
      assert PartFits(pattern, str, cuts, i + 1);
      assert str[k..][later[i]..later[i + 1]] == str[cuts[i + 1]..cuts[i + 2]];
    }
    assert Divides(pattern[1..], str[k..], later);
  }

  lemma {:induction false} CutsGrow(pattern: string, str: string, cuts: seq<nat>, i: nat)
    requires Divides(pattern, str, cuts) && i <= |pattern|
    ensures forall j :: i <= j <= |pattern| ==> cuts[i] <= cuts[j]
    decreases |pattern| - i
  {
    if i < |pattern| {
      assert PartFits(pattern, str, cuts, i);
      CutsGrow(pattern, str, cuts, i + 1);
    }
  }

  /** A part for p and a match of the rest make a match. */
  lemma MatchJoins(pattern: string, str: string, k: nat)
    requires pattern != "" && k <= |str| && Fits(pattern[0], str[..k]) && Matches(pattern[1..], str[k..])
    ensures Matches(pattern, str)
  {
    var later :| Divides(pattern[1..], str[k..], later);
    var cuts := [0] + seq(|pattern|, i requires 0 <= i < |pattern| => later[i] + k);
    forall i | 0 <= i < |pattern| ensures PartFits(pattern, str, cuts, i) {
      if i == 0 {
        assert cuts[1] == k && str[0..k] == str[..k];
      } else {
        assert PartFits(pattern[1..], str[k..], later, i - 1);
        assert str[k..][later[i - 1]..later[i]] == str[cuts[i]..cuts[i + 1]];
      }
    }
    assert Divides(pattern, str, cuts);
  }

  /** One character that is not a star takes one character. */
  lemma MatchOne(pattern: string, str: string)
    requires pattern != "" && pattern[0] != '*'
    ensures Matches(pattern, str) <==> str != "" && Fits(pattern[0], str[..1]) && Matches(pattern[1..], str[1..])
  {
    if Matches(pattern, str) {
      var k := MatchSplits(pattern, str);
      assert k == 1;
    }
    if str != "" && Fits(pattern[0], str[..1]) && Matches(pattern[1..], str[1..]) {
      MatchJoins(pattern, str, 1);
    }
  }

  /** A star takes nothing, or one character and then itself again. */
  lemma MatchStar(pattern: string, str: string)
    requires pattern != "" && pattern[0] == '*'
    ensures Matches(pattern, str) <==> Matches(pattern[1..], str) || (str != "" && Matches(pattern, str[1..]))
  {
    assert str[0..] == str;
    if Matches(pattern, str) {
      var k := MatchSplits(pattern, str);
      if k > 0 {
        assert str[1..][k - 1..] == str[k..];
        MatchJoins(pattern, str[1..], k - 1);
      }
    }
    if Matches(pattern[1..], str) {
      MatchJoins(pattern, str, 0);
    }
    if str != "" && Matches(pattern, str[1..]) {
      var k := MatchSplits(pattern, str[1..]);
      assert str[1..][k..] == str[k + 1..];
      MatchJoins(pattern, str, k + 1);
    }
  }

  lemma LastStar(str: string)
    ensures Matches("*", str)
  {
    assert Divides("*", str, [0, |str|]) by { assert PartFits("*", str, [0, |str|], 0); }
  }

  // ---------- the matcher ----------

  /** wildcardMatch; the strings are what is still to be matched. */
  method WildcardMatch(pattern: string, str: string) returns (matches: bool)
    ensures matches == Matches(pattern, str)
    decreases |pattern| + |str|
  {
    var p, s := pattern, str;
    while s != ""
      invariant |p| <= |pattern| && |s| <= |str| && |pattern| - |p| == |str| - |s|
      invariant Matches(pattern, str) <==> Matches(p, s)
      decreases |s|
    {
      if p == "" {
        EmptyPattern(s);
        return false;
      }
      if p[0] == '*' {
        MatchStar(p, s);
        if |p| == 1 {
          assert p == "*";
          LastStar(s);
          return true;
        }
        matches := WildcardMatch(p[1..], s);
        if !matches { matches := WildcardMatch(p, s[1..]); }
        return;
      }
      MatchOne(p, s);
      if p[0] == '?' {
        if s[0] == '.' { return false; }
      } else if s[0] != p[0] {
        return false;
      }
      p, s := p[1..], s[1..];
    }
    while p != "" && p[0] == '*'
      invariant Matches(pattern, str) <==> Matches(p, "")
      decreases |p|
    {
      MatchStar(p, "");
      p := p[1..];
    }
    EmptyPattern("");
    if p != "" { MatchOne(p, ""); }
    return p == "";
  }

  // ---------- the groups ----------

  /** A line key = value in a group; lines before any group belong to the group "". */
  datatype Line = Line(group: string, key: string, value: string)

  ghost predicate Occurs(lines: seq<Line>, group: string) {
    exists i :: 0 <= i < |lines| && lines[i].group == group
  }

  lemma OccursMore(lines: seq<Line>, l: Line, group: string)
    ensures Occurs(lines + [l], group) <==> Occurs(lines, group) || l.group == group
  {
    var more := lines + [l];
    if Occurs(lines, group) {
      var i :| 0 <= i < |lines| && lines[i].group == group;
      assert more[i].group == group;
    }
    if l.group == group { assert more[|lines|].group == group; }
  }

  /** The named groups, in the order of their first line. */
  ghost function GroupNames(lines: seq<Line>): seq<string> {
    if lines == [] then []
    else
      var n := |lines| - 1;
      var before := GroupNames(lines[..n]);
      if lines[n].group == "" || Occurs(lines[..n], lines[n].group) then before else before + [lines[n].group]
  }

  lemma NamesMore(lines: seq<Line>, l: Line)
    ensures GroupNames(lines + [l]) ==
            if l.group == "" || Occurs(lines, l.group) then GroupNames(lines) else GroupNames(lines) + [l.group]
  {
    assert (lines + [l])[..|lines|] == lines;
  }

  /** i is the first line of the group. */
  ghost predicate First(lines: seq<Line>, group: string, i: nat) {
    i < |lines| && lines[i].group == group && forall j :: 0 <= j < i ==> lines[j].group != group
  }

  /** The list of names holds every named group, and earlier groups have earlier first lines. */
  ghost predicate NamesFirst(lines: seq<Line>, firsts: seq<nat>) {
    var names := GroupNames(lines);
    && |firsts| == |names|
    && (forall i :: 0 <= i < |names| ==> names[i] != "" && First(lines, names[i], firsts[i]))
    && (forall i, j :: 0 <= i < j < |names| ==> firsts[i] < firsts[j])
    && (forall g :: g != "" && Occurs(lines, g) ==> g in names)
  }

  lemma FirstMore(lines: seq<Line>, l: Line, group: string, i: nat)
    requires First(lines, group, i)
    ensures First(lines + [l], group, i)
  {
  }

  lemma OldName(lines: seq<Line>, l: Line, firsts: seq<nat>)
    requires NamesFirst(lines, firsts) && (l.group == "" || Occurs(lines, l.group))
    ensures NamesFirst(lines + [l], firsts)
  {
    NamesMore(lines, l);
    var names := GroupNames(lines);
    forall i | 0 <= i < |names| ensures First(lines + [l], names[i], firsts[i]) { FirstMore(lines, l, names[i], firsts[i]); }
    forall g | g != "" && Occurs(lines + [l], g) ensures g in names { OccursMore(lines, l, g); }
  }

  lemma NewName(lines: seq<Line>, l: Line, firsts: seq<nat>)
    requires NamesFirst(lines, firsts) && l.group != "" && !Occurs(lines, l.group)
    ensures NamesFirst(lines + [l], firsts + [|lines|])
  {
    NamesMore(lines, l);
    var names, all := GroupNames(lines), firsts + [|lines|];
    var names' := names + [l.group];
    assert First(lines + [l], l.group, |lines|);
    forall i | 0 <= i < |names'| ensures names'[i] != "" && First(lines + [l], names'[i], all[i]) {
      if i < |names| { FirstMore(lines, l, names[i], firsts[i]); }
    }
    forall i, j | 0 <= i < j < |names'| ensures all[i] < all[j] {
      assert First(lines, names[i], firsts[i]);
    }
    forall g | g != "" && Occurs(lines + [l], g) ensures g in names' { OccursMore(lines, l, g); }
  }

  lemma {:induction false} NamesInOrder(lines: seq<Line>) returns (firsts: seq<nat>)
    ensures NamesFirst(lines, firsts)
  {
    firsts := [];
    if lines != [] {
      var n := |lines| - 1;
      firsts := NamesInOrder(lines[..n]);
      assert lines[..n] + [lines[n]] == lines;
      if lines[n].group == "" || Occurs(lines[..n], lines[n].group) {
        OldName(lines[..n], lines[n], firsts);
      } else {
        NewName(lines[..n], lines[n], firsts);
        firsts := firsts + [n];
      }
    }
  }

  /** The last value given to a key of a group; -1 if there is none. */
  ghost function LastValue(lines: seq<Line>, group: string, key: string): (i: int)
    ensures -1 <= i < |lines|
    ensures i >= 0 ==> lines[i].group == group && lines[i].key == key
    ensures forall j :: i < j < |lines| ==> !(lines[j].group == group && lines[j].key == key)
  {
    if lines == [] then -1
    else if lines[|lines| - 1].group == group && lines[|lines| - 1].key == key then |lines| - 1
    else LastValue(lines[..|lines| - 1], group, key)
  }

  lemma LastValueMore(lines: seq<Line>, l: Line, group: string, key: string)
    ensures LastValue(lines + [l], group, key) ==
            if l.group == group && l.key == key then |lines| else LastValue(lines, group, key)
  {
    assert (lines + [l])[..|lines|] == lines;
  }

  /** A map of values agrees with the lines of one group. */
  ghost predicate ValuesOf(values: Values, lines: seq<Line>, group: string) {
    forall key :: (key in values <==> LastValue(lines, group, key) >= 0)
                  && (key in values ==> values[key] == lines[LastValue(lines, group, key)].value)
  }

  lemma ValuesMore(values: Values, lines: seq<Line>, l: Line, group: string)
    requires ValuesOf(values, lines, group)
    ensures ValuesOf(if l.group == group then values[l.key := l.value] else values, lines + [l], group)
  {
    forall key ensures LastValue(lines + [l], group, key) ==
                       if l.group == group && l.key == key then |lines| else LastValue(lines, group, key)
    {
      LastValueMore(lines, l, group, key);
    }
    assert forall i :: 0 <= i < |lines| ==> (lines + [l])[i] == lines[i];
  }

  lemma ValueOccurs(lines: seq<Line>, group: string, key: string)
    ensures LastValue(lines, group, key) >= 0 ==> Occurs(lines, group)
  {
    if LastValue(lines, group, key) >= 0 { assert lines[LastValue(lines, group, key)].group == group; }
  }

  lemma NoValues(lines: seq<Line>, group: string)
    requires !Occurs(lines, group)
    ensures ValuesOf(map[], lines, group)
  {
    forall key ensures LastValue(lines, group, key) == -1 { ValueOccurs(lines, group, key); }
  }

  type Values = map<string, string>

  /** The maps and the list of names agree with the lines. */
  ghost predicate Agrees(groups: map<string, Values>, defaultGroup: Values, gnames: seq<string>, lines: seq<Line>) {
    && gnames == GroupNames(lines)
    && (forall g :: g in groups <==> g != "" && Occurs(lines, g))
    && (forall g :: g in groups ==> ValuesOf(groups[g], lines, g))
    && ValuesOf(defaultGroup, lines, "")
  }

  lemma AddDefault(groups: map<string, Values>, defaultGroup: Values, gnames: seq<string>, lines: seq<Line>, l: Line)
    requires Agrees(groups, defaultGroup, gnames, lines) && l.group == ""
    ensures Agrees(groups, defaultGroup[l.key := l.value], gnames, lines + [l])
  {
    NamesMore(lines, l);
    ValuesMore(defaultGroup, lines, l, "");
    forall g | g in groups || g != "" ensures Occurs(lines + [l], g) <==> Occurs(lines, g) || l.group == g { OccursMore(lines, l, g); }
    forall g | g in groups ensures ValuesOf(groups[g], lines + [l], g) { ValuesMore(groups[g], lines, l, g); }
  }

  lemma AddToGroup(groups: map<string, Values>, defaultGroup: Values, gnames: seq<string>, lines: seq<Line>, l: Line)
    requires Agrees(groups, defaultGroup, gnames, lines) && l.group in groups
    ensures Agrees(groups[l.group := groups[l.group][l.key := l.value]], defaultGroup, gnames, lines + [l])
  {
    NamesMore(lines, l);
    ValuesMore(defaultGroup, lines, l, "");
    forall g ensures Occurs(lines + [l], g) <==> Occurs(lines, g) || l.group == g { OccursMore(lines, l, g); }
    forall g | g in groups
      ensures ValuesOf(if l.group == g then groups[g][l.key := l.value] else groups[g], lines + [l], g)
    {
      ValuesMore(groups[g], lines, l, g);
    }
  }

  lemma AddGroup(groups: map<string, Values>, defaultGroup: Values, gnames: seq<string>, lines: seq<Line>, l: Line)
    requires Agrees(groups, defaultGroup, gnames, lines) && l.group != "" && l.group !in groups
    ensures Agrees(groups[l.group := map[l.key := l.value]], defaultGroup, gnames + [l.group], lines + [l])
  {
    NamesMore(lines, l);
    ValuesMore(defaultGroup, lines, l, "");
    forall g ensures Occurs(lines + [l], g) <==> Occurs(lines, g) || l.group == g { OccursMore(lines, l, g); }
    NoValues(lines, l.group);
    ValuesMore(map[], lines, l, l.group);
    forall g | g in groups ensures ValuesOf(groups[g], lines + [l], g) { ValuesMore(groups[g], lines, l, g); }
  }

  class Ini {
    var currentGroup: string
    var groups: map<string, Values>
    var defaultGroup: Values
    var gnames: seq<string>
    /** Every key = value line so far. */
    ghost var lines: seq<Line>

    ghost predicate Valid()
      reads this
    {
      Agrees(groups, defaultGroup, gnames, lines)
    }

    constructor ()
      ensures Valid() && lines == []
    {
      currentGroup, groups, defaultGroup, gnames, lines := "", map[], map[], [], [];
      new;
      NoValues([], "");
    }

    method AddKeyValue(group: string, key: string, value: string)
      requires Valid()
      modifies this
      ensures Valid() && lines == old(lines) + [Line(group, key, value)] && currentGroup == old(currentGroup)
    {
      ghost var l, before := Line(group, key, value), lines;
      if group == "" {
        AddDefault(groups, defaultGroup, gnames, before, l);
        defaultGroup, lines := defaultGroup[key := value], before + [l];
        return;
      }
      if group !in groups {
        AddGroup(groups, defaultGroup, gnames, before, l);
        groups, gnames, lines := groups[group := map[key := value]], gnames + [group], before + [l];
      } else {
        AddToGroup(groups, defaultGroup, gnames, before, l);
        groups, lines := groups[group := groups[group][key := value]], before + [l];
      }
    }

    /** The value of the key in the group, else in the default group, else the default. */
    method InternalGetParam(group: string, key: string, defaultValue: string) returns (r: string)
      requires Valid()
      ensures var i, j := LastValue(lines, group, key), LastValue(lines, "", key);
              r == if i >= 0 then lines[i].value else if j >= 0 then lines[j].value else defaultValue
    {
      if group in groups && key in groups[group] { return groups[group][key]; }
      ValueOccurs(lines, group, key);
      if key in defaultGroup { return defaultGroup[key]; }
      return defaultValue;
    }

    /**
     The group that matches the name and comes first in the file; without one, the default.
     It becomes the current group.
     */
    method GetWildcardMatchGroup(name: string, defaultGroup: string) returns (r: string)
      requires Valid()
      modifies this`currentGroup
      ensures Valid() && currentGroup == r
      ensures Chosen(lines, name, defaultGroup, r)
    {
      ghost var firsts := NamesInOrder(lines);
      var i := FindGroup(name);
      if i == |gnames| {
        NoMatch(lines, name, defaultGroup, firsts);
        currentGroup := defaultGroup;
        return defaultGroup;
      }
      FirstMatch(lines, name, defaultGroup, firsts, i);
      currentGroup := gnames[i];
      return currentGroup;
    }

    /** The position of the first name that matches, or the number of names. */
    method FindGroup(name: string) returns (i: nat)
      ensures i <= |gnames| && (i < |gnames| ==> Matches(gnames[i], name))
      ensures forall j :: 0 <= j < i ==> !Matches(gnames[j], name)
    {
      i := 0;
      while i < |gnames|
        invariant 0 <= i <= |gnames| && forall j :: 0 <= j < i ==> !Matches(gnames[j], name)
      {
        var matches := WildcardMatch(gnames[i], name);
        if matches { return; }
        i := i + 1;
      }
    }
  }

  /** r is the matching group with the earliest first line; or the default, if no group matches. */
  ghost predicate Chosen(lines: seq<Line>, name: string, defaultGroup: string, r: string) {
    || (&& r != "" && Matches(r, name)
        && (exists i :: First(lines, r, i) && (forall g, j :: g != "" && Matches(g, name) && First(lines, g, j) ==> i <= j)))
    || (r == defaultGroup && forall g :: g != "" && Occurs(lines, g) ==> !Matches(g, name))
  }

  lemma FirstMatch(lines: seq<Line>, name: string, defaultGroup: string, firsts: seq<nat>, i: nat)
    requires NamesFirst(lines, firsts) && i < |firsts|
    requires Matches(GroupNames(lines)[i], name) && forall j :: 0 <= j < i ==> !Matches(GroupNames(lines)[j], name)
    ensures Chosen(lines, name, defaultGroup, GroupNames(lines)[i])
  {
    var names := GroupNames(lines);
    assert First(lines, names[i], firsts[i]);
    forall g, j | g != "" && Matches(g, name) && First(lines, g, j) ensures firsts[i] <= j {
      assert Occurs(lines, g);
      var k :| 0 <= k < |names| && names[k] == g;
      assert First(lines, g, firsts[k]) && firsts[k] == j;
    }
  }

  lemma NoMatch(lines: seq<Line>, name: string, defaultGroup: string, firsts: seq<nat>)
    requires NamesFirst(lines, firsts) && forall j :: 0 <= j < |firsts| ==> !Matches(GroupNames(lines)[j], name)
    ensures Chosen(lines, name, defaultGroup, defaultGroup)
  {
    var names := GroupNames(lines);
    forall g | g != "" && Occurs(lines, g) ensures !Matches(g, name) {
      var k :| 0 <= k < |names| && names[k] == g;
    }
  }
}
