/** The environment block of a new Windows process: the variables of the
    caller, in the order of their upper case names, and those required ones
    that the caller does not have but this process does. */
module Environment {
  import opened Common

  // ----- The order of variables -----

  /** Compare two upper case names, character by character. */
  function Compare(a: string, b: string): int {
    if a == [] then (if b == [] then 0 else -1)
    else if b == [] then 1
    else if a[0] < b[0] then -1
    else if a[0] > b[0] then 1
    else Compare(a[1..], b[1..])
  }

  lemma {:induction false} CompareIsOrder(a: string, b: string)
    ensures Compare(a, b) == -Compare(b, a) && -1 <= Compare(a, b) <= 1
    ensures Compare(a, b) == 0 <==> a == b
  {
    if a != [] && b != [] && a[0] == b[0] {
      CompareIsOrder(a[1..], b[1..]);
      assert a == [a[0]] + a[1..] && b == [b[0]] + b[1..];
    }
  }

  lemma {:induction false} CompareIsTransitive(a: string, b: string, c: string)
    requires Compare(a, b) <= 0 && Compare(b, c) <= 0
    ensures Compare(a, c) <= 0
    ensures Compare(a, b) < 0 || Compare(b, c) < 0 ==> Compare(a, c) < 0
  {
    if a != [] && b != [] && c != [] && a[0] == b[0] == c[0] {
      CompareIsTransitive(a[1..], b[1..], c[1..]);
    }
  }

  /** The order is that of the first character that differs, and a name is
      below those that go on after it. */
  lemma {:induction false} CompareIs(a: string, b: string)
    ensures Compare(a, b) < 0 <==> a < b || exists k :: DiffersAt(a, b, k) && a[k] < b[k]
  {
    if a != [] && b != [] && a[0] == b[0] {
      CompareIs(a[1..], b[1..]);
      assert a == [a[0]] + a[1..] && b == [b[0]] + b[1..];
      if k :| DiffersAt(a, b, k) && a[k] < b[k] {
        assert a[..k][1..] == a[1..][..k - 1] && b[..k][1..] == b[1..][..k - 1];
        assert DiffersAt(a[1..], b[1..], k - 1);
      }
      if k :| DiffersAt(a[1..], b[1..], k) && a[1..][k] < b[1..][k] {
        assert a[..k + 1] == [a[0]] + a[1..][..k] && b[..k + 1] == [b[0]] + b[1..][..k];
        assert DiffersAt(a, b, k + 1);
      }
    } else if a != [] && b != [] {
      assert DiffersAt(a, b, 0);
    }
  }

  ghost predicate DiffersAt(a: string, b: string, k: int) {
    0 <= k < |a| && k < |b| && a[..k] == b[..k] && a[k] != b[k]
  }

  function Equals(text: string): (i: nat)
    ensures i <= |text| && '=' !in text[..i]
    ensures if '=' in text then i < |text| && text[i] == '=' else i == |text|
  {
    if text == [] || text[0] == '=' then 0 else
    var i := Equals(text[1..]);
    assert text[..1 + i] == [text[0]] + text[1..][..i];
    1 + i
  }

  /** The name in "name=value". */
  function Name(text: string): (name: string)
    ensures '=' !in name && (if '=' in text then name + ['='] <= text else name == text)
  {
    text[..Equals(text)]
  }

  function Upper(up: char -> char, s: string): (r: string)
    ensures |r| == |s|
  {
    seq(|s|, i requires 0 <= i < |s| => up(s[i]))
  }

  function Key(up: char -> char, text: string): string { Upper(up, Name(text)) }

  /** Upper case letters exist, and none of them ends a string. */
  ghost predicate Proper(up: char -> char) {
    forall c :: c != NUL ==> up(c) != NUL
  }

  /** env_strncmp: both names are copied in upper case, with a NUL at their
      end, and compared up to that. An empty name cannot be copied: None is the
      error that is thrown then. */
  method EnvCompare(up: char -> char, a: string, b: string) returns (r: Option<int>)
    requires Proper(up) && NUL !in a && NUL !in b
    ensures r == if a == [] || b == [] then None else Some(Compare(Upper(up, a), Upper(up, b)))
  {
    if a == [] || b == [] {
      return None;
    }
    var A, B := Upper(up, a) + [NUL], Upper(up, b) + [NUL];
    var i := 0;
    ghost var ua, ub := Upper(up, a), Upper(up, b);
    assert ua[0..] == ua && ub[0..] == ub;
    while true
      invariant i <= |a| && i <= |b|
      invariant Compare(ua, ub) == Compare(ua[i..], ub[i..])
      decreases |a| - i
    {
      var AA, BB := A[i], B[i];
      assert i < |a| ==> AA == up(a[i]) && a[i] in a && AA != NUL;
      assert i < |b| ==> BB == up(b[i]) && b[i] in b && BB != NUL;
      if AA < BB {
        return Some(-1);
      } else if AA > BB {
        return Some(1);
      } else if AA == NUL && BB == NUL {
        return Some(0);
      }
      i := i + 1;
    }
  }

  ghost predicate Sorted(up: char -> char, texts: seq<string>) {
    forall i, j | 0 <= i < j < |texts| :: Compare(Key(up, texts[i]), Key(up, texts[j])) <= 0
  }

  // ----- The merge -----

  /** A required variable of this process, as "name=value". */
  function Inherited(parent: map<string, string>, name: string): seq<string> {
    if name in parent then [name + ['='] + parent[name]] else []
  }

  predicate Absent(up: char -> char, texts: seq<string>, name: string) {
    forall t | t in texts :: Key(up, t) != Upper(up, name)
  }

  /** Variables that are required, not set by the caller, and set here. */
  function Missing(
    up: char -> char, texts: seq<string>, required: seq<string>, parent: map<string, string>): seq<string>
  {
    if required == [] then [] else
    (if Absent(up, texts, required[0]) then Inherited(parent, required[0]) else [])
      + Missing(up, texts, required[1..], parent)
  }

  /** The names are in strictly increasing order. */
  ghost predicate Increasing(up: char -> char, names: seq<string>) {
    forall i, j | 0 <= i < j < |names| :: Compare(Upper(up, names[i]), Upper(up, names[j])) < 0
  }

  /** What the two passes over the variables and the required names visit. */
  function Merge(up: char -> char, texts: seq<string>, required: seq<string>, parent: map<string, string>): seq<string>
    decreases |texts| + |required|
  {
    if required == [] then texts
    else if texts == [] then Inherited(parent, required[0]) + Merge(up, texts, required[1..], parent)
    else
      var cmp := Compare(Upper(up, required[0]), Key(up, texts[0]));
      if cmp < 0 then Inherited(parent, required[0]) + Merge(up, texts, required[1..], parent)
      else [texts[0]] + Merge(up, texts[1..], if cmp == 0 then required[1..] else required, parent)
  }

  // ----- What the merge contains -----

  ghost predicate AllAbove(up: char -> char, k: string, names: seq<string>) {
    forall r | r in names :: Compare(k, Upper(up, r)) < 0
  }

  ghost predicate AtLeast(up: char -> char, k: string, texts: seq<string>) {
    forall t | t in texts :: Compare(k, Key(up, t)) <= 0
  }

  /** A variable below all required names is none of them. */
  lemma {:induction false} MissingWithout(
    up: char -> char, texts: seq<string>, required: seq<string>, parent: map<string, string>)
    requires texts != [] && AllAbove(up, Key(up, texts[0]), required)
    ensures Missing(up, texts, required, parent) == Missing(up, texts[1..], required, parent)
  {
    if required != [] {
      assert required[0] in required && forall r | r in required[1..] :: r in required;
      MissingWithout(up, texts, required[1..], parent);
      CompareIsOrder(Key(up, texts[0]), Upper(up, required[0]));
      assert forall t :: t in texts <==> t == texts[0] || t in texts[1..];
    }
  }

  /** The first variable is the least one. */
  lemma SortedFirst(up: char -> char, texts: seq<string>)
    requires Sorted(up, texts) && texts != []
    ensures AtLeast(up, Key(up, texts[0]), texts) && Sorted(up, texts[1..])
  {
    CompareIsOrder(Key(up, texts[0]), Key(up, texts[0]));
  }

  lemma IncreasingFirst(up: char -> char, names: seq<string>)
    requires Increasing(up, names) && names != []
    ensures AllAbove(up, Upper(up, names[0]), names[1..]) && Increasing(up, names[1..])
  {
  }

  lemma AboveAll(up: char -> char, k: string, name: string, texts: seq<string>)
    requires Compare(k, name) < 0 && AtLeast(up, name, texts)
    ensures forall t | t in texts :: Compare(k, Key(up, t)) < 0 && Key(up, t) != k
  {
    forall t | t in texts ensures Compare(k, Key(up, t)) < 0 && Key(up, t) != k {
      CompareIsTransitive(k, name, Key(up, t));
      CompareIsOrder(k, Key(up, t));
    }
  }

  lemma AllAboveToo(up: char -> char, k: string, name: string, names: seq<string>)
    requires Compare(k, name) <= 0 && AllAbove(up, name, names)
    ensures AllAbove(up, k, names)
  {
    forall r | r in names ensures Compare(k, Upper(up, r)) < 0 {
      CompareIsTransitive(k, name, Upper(up, r));
    }
  }

  lemma CutFirst(s: seq<string>)
    requires s != []
    ensures multiset(s) == multiset{s[0]} + multiset(s[1..])
  {
    assert s == [s[0]] + s[1..];
  }

  lemma MissingOne(up: char -> char, texts: seq<string>, required: seq<string>, parent: map<string, string>)
    requires Sorted(up, texts) && required != []
    requires texts == [] || Compare(Upper(up, required[0]), Key(up, texts[0])) < 0
    ensures Missing(up, texts, required, parent)
         == Inherited(parent, required[0]) + Missing(up, texts, required[1..], parent)
  {
    if texts != [] {
      SortedFirst(up, texts);
      AboveAll(up, Upper(up, required[0]), Key(up, texts[0]), texts);
    }
  }

  /** What a variable that is not above the first required name takes away. */
  lemma MissingAfter(up: char -> char, texts: seq<string>, required: seq<string>, parent: map<string, string>)
    requires Increasing(up, required) && required != [] && texts != []
    requires Compare(Upper(up, required[0]), Key(up, texts[0])) >= 0
    ensures Missing(up, texts, required, parent) == Missing(up, texts[1..],
      if Compare(Upper(up, required[0]), Key(up, texts[0])) == 0 then required[1..] else required, parent)
  {
    var name, first := Upper(up, required[0]), Key(up, texts[0]);
    IncreasingFirst(up, required);
    CompareIsOrder(name, first);
    if name == first {
      assert texts[0] in texts;
      MissingWithout(up, texts, required[1..], parent);
    } else {
      AllAboveToo(up, first, name, required[1..]);
      assert forall r | r in required :: r == required[0] || r in required[1..];
      MissingWithout(up, texts, required, parent);
    }
  }

  lemma AddBoth(a: seq<string>, merged: seq<string>, texts: seq<string>, missing: seq<string>)
    requires multiset(merged) == multiset(texts) + multiset(missing)
    ensures multiset(a + merged) == multiset(texts) + multiset(a + missing)
  {
  }

  lemma AddFirst(texts: seq<string>, merged: seq<string>, missing: seq<string>)
    requires texts != [] && multiset(merged) == multiset(texts[1..]) + multiset(missing)
    ensures multiset([texts[0]] + merged) == multiset(texts) + multiset(missing)
  {
    CutFirst(texts);
  }

  /** In the merge is every variable of the caller, and every required one
      whose name the caller does not have, each once. */
  lemma {:induction false} MergeContent(
    up: char -> char, texts: seq<string>, required: seq<string>, parent: map<string, string>)
    requires Sorted(up, texts) && Increasing(up, required)
    ensures multiset(Merge(up, texts, required, parent))
         == multiset(texts) + multiset(Missing(up, texts, required, parent))
    decreases |texts| + |required|
  {
    if required == [] {
    } else if texts == [] || Compare(Upper(up, required[0]), Key(up, texts[0])) < 0 {
      IncreasingFirst(up, required);
      MissingOne(up, texts, required, parent);
      MergeContent(up, texts, required[1..], parent);
      AddBoth(Inherited(parent, required[0]), Merge(up, texts, required[1..], parent), texts,
        Missing(up, texts, required[1..], parent));
    } else {
      SortedFirst(up, texts);
      IncreasingFirst(up, required);
      MissingAfter(up, texts, required, parent);
      var rest := if Compare(Upper(up, required[0]), Key(up, texts[0])) == 0 then required[1..] else required;
      MergeContent(up, texts[1..], rest, parent);
      AddFirst(texts, Merge(up, texts[1..], rest, parent), Missing(up, texts[1..], rest, parent));
    }
  }

  // ----- The merge is sorted -----

  lemma {:induction false} NameOfJoined(name: string, value: string)
    requires '=' !in name
    ensures Name(name + ['='] + value) == name
  {
    if name == [] {
      assert (name + ['='] + value)[0] == '=';
    } else {
      assert name[0] in name && forall c | c in name[1..] :: c in name;
      NameOfJoined(name[1..], value);
      assert (name + ['='] + value)[1..] == name[1..] + ['='] + value;
      assert (name + ['='] + value)[..|name|] == name;
      EqualsAt(name + ['='] + value, |name|);
    }
  }

  lemma {:induction false} EqualsAt(text: string, i: nat)
    requires i < |text| && text[i] == '=' && '=' !in text[..i]
    ensures Equals(text) == i
  {
    if i > 0 {
      assert text[0] == text[..i][0] && text[1..][..i - 1] == text[..i][1..];
      EqualsAt(text[1..], i - 1);
    }
  }

  lemma InheritedKey(up: char -> char, parent: map<string, string>, name: string)
    requires '=' !in name
    ensures forall t | t in Inherited(parent, name) :: Key(up, t) == Upper(up, name)
  {
    if name in parent { NameOfJoined(name, parent[name]); }
  }

  ghost predicate NoEquals(names: seq<string>) { forall r | r in names :: '=' !in r }

  lemma {:induction false} MergeAtLeast(
    up: char -> char, k: string, texts: seq<string>, required: seq<string>, parent: map<string, string>)
    requires AtLeast(up, k, texts) && AtLeastNames(up, k, required) && NoEquals(required)
    ensures AtLeast(up, k, Merge(up, texts, required, parent))
    decreases |texts| + |required|
  {
    if required != [] {
      assert required[0] in required && forall r | r in required[1..] :: r in required;
      InheritedKey(up, parent, required[0]);
      if texts == [] || Compare(Upper(up, required[0]), Key(up, texts[0])) < 0 {
        MergeAtLeast(up, k, texts, required[1..], parent);
      } else {
        assert texts[0] in texts && forall t | t in texts[1..] :: t in texts;
        MergeAtLeast(up, k, texts[1..],
          if Compare(Upper(up, required[0]), Key(up, texts[0])) == 0 then required[1..] else required, parent);
      }
    }
  }

  ghost predicate AtLeastNames(up: char -> char, k: string, names: seq<string>) {
    forall r | r in names :: Compare(k, Upper(up, r)) <= 0
  }

  lemma SortedCons(up: char -> char, front: seq<string>, k: string, texts: seq<string>)
    requires |front| <= 1 && (forall t | t in front :: Key(up, t) == k)
    requires Sorted(up, texts) && AtLeast(up, k, texts)
    ensures Sorted(up, front + texts)
  {
    if front != [] { assert front[0] in front; }
  }

  lemma AtLeastToo(up: char -> char, k: string, name: string, texts: seq<string>)
    requires Compare(k, name) <= 0 && AtLeast(up, name, texts)
    ensures AtLeast(up, k, texts)
  {
    forall t | t in texts ensures Compare(k, Key(up, t)) <= 0 {
      CompareIsTransitive(k, name, Key(up, t));
    }
  }

  /** The merge is in the order of the names. */
  lemma {:induction false} MergeSorted(
    up: char -> char, texts: seq<string>, required: seq<string>, parent: map<string, string>)
    requires Sorted(up, texts) && Increasing(up, required) && NoEquals(required)
    ensures Sorted(up, Merge(up, texts, required, parent))
    decreases |texts| + |required|
  {
    if required != [] {
      var name := Upper(up, required[0]);
      IncreasingFirst(up, required);
      assert required[0] in required && forall r | r in required[1..] :: r in required;
      if texts == [] || Compare(name, Key(up, texts[0])) < 0 {
        MergeSorted(up, texts, required[1..], parent);
        if texts != [] {
          SortedFirst(up, texts);
          AtLeastToo(up, name, Key(up, texts[0]), texts);
        }
        MergeAtLeast(up, name, texts, required[1..], parent);
        InheritedKey(up, parent, required[0]);
        SortedCons(up, Inherited(parent, required[0]), name, Merge(up, texts, required[1..], parent));
      } else {
        MergeSortedVariable(up, texts, required, parent);
      }
    }
  }

  lemma {:induction false} MergeSortedVariable(
    up: char -> char, texts: seq<string>, required: seq<string>, parent: map<string, string>)
    requires Sorted(up, texts) && Increasing(up, required) && NoEquals(required)
    requires texts != [] && required != [] && Compare(Upper(up, required[0]), Key(up, texts[0])) >= 0
    ensures Sorted(up, Merge(up, texts, required, parent))
    decreases |texts| + |required|, 0
  {
    var name, first := Upper(up, required[0]), Key(up, texts[0]);
    IncreasingFirst(up, required);
    SortedFirst(up, texts);
    CompareIsOrder(name, first);
    var rest := if Compare(name, first) == 0 then required[1..] else required;
    AllAboveToo(up, first, name, required[1..]);
    assert forall r | r in required :: r == required[0] || r in required[1..];
    MergeSorted(up, texts[1..], rest, parent);
    assert forall t | t in texts[1..] :: t in texts;
    MergeAtLeast(up, first, texts[1..], rest, parent);
    SortedCons(up, [texts[0]], first, Merge(up, texts[1..], rest, parent));
  }

  // ----- The two together -----

  /** Is t the required variable `name` of this process, which none of `mine`
      is? */
  ghost predicate Fills(up: char -> char, mine: set<string>, parent: map<string, string>, name: string, t: string) {
    name in parent && t == name + ['='] + parent[name] && forall u | u in mine :: Upper(up, Name(u)) != Upper(up, name)
  }

  ghost predicate IsMissing(
    up: char -> char, mine: set<string>, required: seq<string>, parent: map<string, string>, t: string)
  {
    exists name :: name in required && Fills(up, mine, parent, name, t)
  }

  lemma FillsOnce(up: char -> char, mine: set<string>, required: seq<string>, parent: map<string, string>, t: string)
    requires required != [] && Increasing(up, required) && NoEquals(required)
    requires Fills(up, mine, parent, required[0], t)
    ensures !IsMissing(up, mine, required[1..], parent, t)
  {
    assert required[0] in required;
    NameOfJoined(required[0], parent[required[0]]);
    forall name | name in required[1..] && Fills(up, mine, parent, name, t) ensures false {
      assert name in required;
      NameOfJoined(name, parent[name]);
      IncreasingFirst(up, required);
      CompareIsOrder(Upper(up, required[0]), Upper(up, name));
    }
  }

  lemma MissingOfRest(
    up: char -> char, mine: set<string>, required: seq<string>, parent: map<string, string>, t: string)
    requires required != []
    ensures IsMissing(up, mine, required, parent, t)
      <==> Fills(up, mine, parent, required[0], t) || IsMissing(up, mine, required[1..], parent, t)
  {
    assert forall name :: name in required <==> name == required[0] || name in required[1..];
  }

  lemma FirstCount(up: char -> char, texts: seq<string>, parent: map<string, string>, name: string, t: string)
    ensures multiset(if Absent(up, texts, name) then Inherited(parent, name) else [])[t]
         == if Fills(up, (set u | u in texts), parent, name, t) then 1 else 0
  {
  }

  lemma NoEqualsFirst(names: seq<string>)
    requires names != [] && NoEquals(names)
    ensures '=' !in names[0] && NoEquals(names[1..])
  {
    assert names[0] in names && forall r | r in names[1..] :: r in names;
  }

  lemma {:induction false} MissingCount(
    up: char -> char, texts: seq<string>, required: seq<string>, parent: map<string, string>, t: string)
    requires Increasing(up, required) && NoEquals(required)
    ensures multiset(Missing(up, texts, required, parent))[t]
         == if IsMissing(up, (set u | u in texts), required, parent, t) then 1 else 0
  {
    if required == [] {
    } else {
      var mine := set u | u in texts;
      NoEqualsFirst(required);
      IncreasingFirst(up, required);
      MissingCount(up, texts, required[1..], parent, t);
      FirstCount(up, texts, parent, required[0], t);
      MissingOfRest(up, mine, required, parent, t);
      if Fills(up, mine, parent, required[0], t) { FillsOnce(up, mine, required, parent, t); }
    }
  }

  // ----- How the block is built -----

  /** The strings of a block, each with a NUL at its end. */
  function Flatten(texts: seq<string>): string {
    if texts == [] then [] else texts[0] + [NUL] + Flatten(texts[1..])
  }

  lemma {:induction false} FlattenAppend(a: seq<string>, b: seq<string>)
    ensures Flatten(a + b) == Flatten(a) + Flatten(b)
  {
    if a == [] {
      assert a + b == b;
    } else {
      assert (a + b)[1..] == a[1..] + b;
      FlattenAppend(a[1..], b);
    }
  }

  function EndOf(s: string): (i: nat)
    ensures i <= |s|
  {
    if s == [] || s[0] == NUL then 0 else 1 + EndOf(s[1..])
  }

  /** The strings that are read from a block: each to its NUL, up to an empty
      one. */
  function Strings(block: string): seq<string>
    decreases |block|
  {
    if block == [] || block[0] == NUL then [] else
    var i := EndOf(block);
    [block[..i]] + if i < |block| then Strings(block[i + 1..]) else []
  }

  lemma {:induction false} EndOfFirst(text: string, rest: string)
    requires NUL !in text
    ensures EndOf(text + [NUL] + rest) == |text|
  {
    var s := text + [NUL] + rest;
    if text != [] {
      EndOfFirst(text[1..], rest);
      assert s[1..] == text[1..] + [NUL] + rest;
      assert s[0] in text;
    }
  }

  lemma BlockParts(first: string, rest: string)
    ensures var block := first + [NUL] + rest + [NUL];
      && block == first + [NUL] + (rest + [NUL])
      && block[..|first|] == first && block[|first| + 1..] == rest + [NUL]
  {
  }

  /** Reading gives back what was written, if no string has a NUL in it or is
      empty. */
  lemma {:induction false} FlattenReads(texts: seq<string>)
    requires forall t | t in texts :: t != [] && NUL !in t
    ensures Strings(Flatten(texts) + [NUL]) == texts
  {
    if texts != [] {
      var first, rest := texts[0], Flatten(texts[1..]) + [NUL];
      assert first in texts && first[0] in first;
      assert forall t | t in texts[1..] :: t in texts;
      FlattenReads(texts[1..]);
      EndOfFirst(first, rest);
      BlockParts(first, Flatten(texts[1..]));
    }
  }

  ghost predicate Usable(text: string) { NUL !in text && Equals(text) > 0 }

  ghost predicate UsableNames(names: seq<string>) { forall r | r in names :: NUL !in r && r != [] && '=' !in r }

  /** The next step of both passes: take the required name i (negative), the
      variable p (positive), or the variable p, which is i (0). */
  method Next(up: char -> char, texts: seq<string>, p: nat, required: seq<string>, i: nat) returns (cmp: int)
    requires Proper(up) && UsableNames(required) && (forall t | t in texts :: Usable(t))
    requires p <= |texts| && i <= |required| && (p < |texts| || i < |required|)
    ensures cmp == if i >= |required| then 1 else if p == |texts| then -1
      else Compare(Upper(up, required[i]), Key(up, texts[p]))
  {
    if i >= |required| {
      cmp := 1;
    } else if p == |texts| {
      cmp := -1;
    } else {
      assert required[i] in required && texts[p] in texts;
      var r := EnvCompare(up, required[i], Name(texts[p]));
      cmp := r.value;
    }
  }

  /** One step of the merge of what is left. */
  lemma MergeStep(
    up: char -> char, texts: seq<string>, p: nat, required: seq<string>, i: nat, parent: map<string, string>)
    requires p <= |texts| && i <= |required| && (p < |texts| || i < |required|)
    ensures var cmp := if i >= |required| then 1 else if p == |texts| then -1
                       else Compare(Upper(up, required[i]), Key(up, texts[p]));
      Flatten(Merge(up, texts[p..], required[i..], parent)) ==
        if cmp < 0
        then Flatten(Inherited(parent, required[i])) + Flatten(Merge(up, texts[p..], required[i + 1..], parent))
        else texts[p] + [NUL] + Flatten(Merge(up, texts[p + 1..], required[if cmp == 0 then i + 1 else i..], parent))
  {
    assert p < |texts| ==> texts[p..][0] == texts[p] && texts[p..][1..] == texts[p + 1..];
    if i < |required| {
      assert required[i..][0] == required[i] && required[i..][1..] == required[i + 1..];
      FlattenAppend(Inherited(parent, required[i]), Merge(up, texts[p..], required[i + 1..], parent));
    }
    if p < |texts| {
      var more := if i < |required| && Compare(Upper(up, required[i]), Key(up, texts[p])) == 0
                  then required[i + 1..] else required[i..];
      assert ([texts[p]] + Merge(up, texts[p + 1..], more, parent))[1..] == Merge(up, texts[p + 1..], more, parent);
    }
  }

  /** GetEnvironmentVariable without a buffer: the length with a NUL, or 0. */
  function ValueLength(parent: map<string, string>, name: string): nat {
    if name in parent then |parent[name]| + 1 else 0
  }

  lemma InheritedLength(parent: map<string, string>, name: string)
    ensures var size := ValueLength(parent, name);
      |Flatten(Inherited(parent, name))| == if size == 0 then 0 else |name| + 1 + size
  {
    assert Flatten([]) == [];
  }

  lemma NotAbsent(up: char -> char, texts: seq<string>, p: nat, name: string)
    requires p < |texts| && Compare(Upper(up, name), Key(up, texts[p])) == 0
    ensures !Absent(up, texts, name)
  {
    CompareIsOrder(Upper(up, name), Key(up, texts[p]));
    assert texts[p] in texts;
  }

  /** The lengths of the values of all missing names up to i are known. */
  ghost predicate Known(
    up: char -> char, texts: seq<string>, required: seq<string>, parent: map<string, string>, lengths: seq<nat>, i: nat)
    requires i <= |required| == |lengths|
  {
    forall j | 0 <= j < i && Absent(up, texts, required[j]) :: lengths[j] == ValueLength(parent, required[j])
  }

  /** The rest of the merge. */
  ghost function Rest(
    up: char -> char, texts: seq<string>, p: nat, required: seq<string>, i: nat, parent: map<string, string>): string
    requires p <= |texts| && i <= |required|
  {
    Flatten(Merge(up, texts[p..], required[i..], parent))
  }

  lemma KnownNext(
    up: char -> char, texts: seq<string>, required: seq<string>, parent: map<string, string>, lengths: seq<nat>, i: nat,
    length: nat)
    requires i < |required| == |lengths| && Known(up, texts, required, parent, lengths, i)
    requires Absent(up, texts, required[i]) ==> length == ValueLength(parent, required[i])
    ensures Known(up, texts, required, parent, lengths[i := length], i + 1)
  {
  }

  lemma FlattenFrom(texts: seq<string>, p: nat)
    requires p < |texts|
    ensures |Flatten(texts[p..])| == |texts[p]| + 1 + |Flatten(texts[p + 1..])|
  {
    assert texts[p..][0] == texts[p] && texts[p..][1..] == texts[p + 1..];
  }

  /** One step of the third pass. */
  method RoomNext(
    up: char -> char, texts: seq<string>, p: nat, required: seq<string>, i: nat, parent: map<string, string>,
    lengths: array<nat>, envLen: nat)
    returns (envLen': nat, p': nat, i': nat)
    requires Proper(up) && UsableNames(required) && (forall t | t in texts :: Usable(t))
    requires p <= |texts| && i < |required| == lengths.Length && Known(up, texts, required, parent, lengths[..], i)
    modifies lengths
    ensures p <= p' <= |texts| && i <= i' <= |required| && p + i < p' + i'
    ensures Known(up, texts, required, parent, lengths[..], i')
    ensures envLen' + |Rest(up, texts, p', required, i', parent)| + |Flatten(texts[p..])|
         == envLen + |Rest(up, texts, p, required, i, parent)| + |Flatten(texts[p'..])|
  {
    envLen', p', i' := envLen, p, i;
    var cmp := Next(up, texts, p, required, i);
    MergeStep(up, texts, p, required, i, parent);
    if cmp < 0 {
      var size := ValueLength(parent, required[i]);
      KnownNext(up, texts, required, parent, lengths[..], i, size);
      lengths[i] := size;
      InheritedLength(parent, required[i]);
      if size != 0 { envLen' := envLen + |required[i]| + 1 + size; }
      i' := i + 1;
    } else {
      FlattenFrom(texts, p);
      if cmp == 0 {
        NotAbsent(up, texts, p, required[i]);
        i' := i + 1;
      }
      p' := p + 1;
    }
  }

  /** Third pass: look for required variables, and make room for them. */
  method MakeRoom(
    up: char -> char, texts: seq<string>, required: seq<string>, parent: map<string, string>, len: nat)
    returns (envLen: nat, lengths: array<nat>)
    requires Proper(up) && UsableNames(required) && (forall t | t in texts :: Usable(t))
    requires len == |Flatten(texts)|
    ensures fresh(lengths) && lengths.Length == |required|
    ensures envLen == |Flatten(Merge(up, texts, required, parent))|
    ensures Known(up, texts, required, parent, lengths[..], |required|)
  {
    lengths := new nat[|required|](_ => 0);
    envLen := len;
    var p, i := 0, 0;
    assert texts[0..] == texts && required[0..] == required;
    while i < |required|
      invariant p <= |texts| && i <= |required|
      invariant envLen + |Rest(up, texts, p, required, i, parent)|
             == |Flatten(Merge(up, texts, required, parent))| + |Flatten(texts[p..])|
      invariant Known(up, texts, required, parent, lengths[..], i)
      decreases |texts| - p + |required| - i
    {
      envLen, p, i := RoomNext(up, texts, p, required, i, parent, lengths, envLen);
    }
    assert required[i..] == [];
  }

  /** The variables before p are below the required name i. */
  ghost predicate Below(up: char -> char, texts: seq<string>, p: nat, required: seq<string>, i: nat)
    requires p <= |texts| && i <= |required|
  {
    i < |required| ==> forall q | 0 <= q < p :: Compare(Key(up, texts[q]), Upper(up, required[i])) < 0
  }

  lemma StillBelow(up: char -> char, texts: seq<string>, p: nat, required: seq<string>, i: nat)
    requires p <= |texts| && i < |required| && Below(up, texts, p, required, i) && Increasing(up, required)
    ensures Below(up, texts, p, required, i + 1)
    ensures p < |texts| && Compare(Upper(up, required[i]), Key(up, texts[p])) == 0 ==>
      Below(up, texts, p + 1, required, i + 1)
    ensures p < |texts| && Compare(Upper(up, required[i]), Key(up, texts[p])) > 0 ==>
      Below(up, texts, p + 1, required, i)
  {
    if p < |texts| { CompareIsOrder(Upper(up, required[i]), Key(up, texts[p])); }
    if i + 1 < |required| {
      forall q | 0 <= q < p ensures Compare(Key(up, texts[q]), Upper(up, required[i + 1])) < 0 {
        CompareIsTransitive(Key(up, texts[q]), Upper(up, required[i]), Upper(up, required[i + 1]));
      }
    }
  }

  lemma AbsentHere(up: char -> char, texts: seq<string>, p: nat, required: seq<string>, i: nat)
    requires p <= |texts| && i < |required| && Below(up, texts, p, required, i) && Sorted(up, texts)
    requires p < |texts| ==> Compare(Upper(up, required[i]), Key(up, texts[p])) < 0
    ensures Absent(up, texts, required[i])
  {
    var name := Upper(up, required[i]);
    forall q | 0 <= q < |texts| ensures Key(up, texts[q]) != name {
      CompareIsOrder(name, Key(up, texts[q]));
      if q > p { CompareIsTransitive(name, Key(up, texts[p]), Key(up, texts[q])); }
    }
  }

  /** Copy a required variable of this process, if it has it. */
  method CopyInherited(parent: map<string, string>, name: string, length: nat, dst: array<char>, pos: nat)
    returns (next: nat)
    requires length == ValueLength(parent, name) && pos + |Flatten(Inherited(parent, name))| <= dst.Length
    modifies dst
    ensures next == pos + |Flatten(Inherited(parent, name))|
    ensures dst[..next] == old(dst[..pos]) + Flatten(Inherited(parent, name))
  {
    next := pos;
    if length != 0 {
      ghost var text := name + ['='] + parent[name];
      assert Flatten([text]) == text + [NUL] + [] == text + [NUL];
      next := Write(dst, pos, name + ['=']);
      next := Write(dst, next, parent[name] + [NUL]);
    } else {
      assert old(dst[..pos]) + [] == dst[..pos];
    }
  }

  lemma Regroup(a: string, b: string, c: string)
    ensures a + (b + c) == (a + b) + c
  {
  }

  /** One step of the merge, behind what was copied before. */
  lemma RestStep(
    up: char -> char, texts: seq<string>, p: nat, required: seq<string>, i: nat, parent: map<string, string>,
    before: string)
    requires p <= |texts| && i <= |required| && (p < |texts| || i < |required|)
    ensures var cmp := if i >= |required| then 1 else if p == |texts| then -1
                       else Compare(Upper(up, required[i]), Key(up, texts[p]));
      var more := if cmp < 0 then Flatten(Inherited(parent, required[i])) else texts[p] + [NUL];
      var rest := Rest(up, texts, if cmp < 0 then p else p + 1, required, if cmp <= 0 then i + 1 else i, parent);
      && before + Rest(up, texts, p, required, i, parent) == before + more + rest
      && |Rest(up, texts, p, required, i, parent)| == |more| + |rest|
  {
    MergeStep(up, texts, p, required, i, parent);
    var cmp := if i >= |required| then 1 else if p == |texts| then -1
               else Compare(Upper(up, required[i]), Key(up, texts[p]));
    Regroup(before, if cmp < 0 then Flatten(Inherited(parent, required[i])) else texts[p] + [NUL],
      Rest(up, texts, if cmp < 0 then p else p + 1, required, if cmp <= 0 then i + 1 else i, parent));
  }

  /** One step of the final pass. */
  method CopyNext(
    up: char -> char, texts: seq<string>, p: nat, required: seq<string>, i: nat, parent: map<string, string>,
    lengths: array<nat>, dst: array<char>, pos: nat)
    returns (pos': nat, p': nat, i': nat)
    requires Proper(up) && UsableNames(required) && (forall t | t in texts :: Usable(t))
    requires Sorted(up, texts) && Increasing(up, required)
    requires lengths.Length == |required| && Known(up, texts, required, parent, lengths[..], |required|)
    requires p <= |texts| && i <= |required| && (p < |texts| || i < |required|)
    requires Below(up, texts, p, required, i)
    requires pos + |Rest(up, texts, p, required, i, parent)| < dst.Length
    modifies dst
    ensures p <= p' <= |texts| && i <= i' <= |required| && p + i < p' + i'
    ensures Below(up, texts, p', required, i')
    ensures pos' + |Rest(up, texts, p', required, i', parent)| == pos + |Rest(up, texts, p, required, i, parent)|
    ensures dst[..pos'] + Rest(up, texts, p', required, i', parent)
         == old(dst[..pos]) + Rest(up, texts, p, required, i, parent)
  {
    pos', p', i' := pos, p, i;
    var cmp := Next(up, texts, p, required, i);
    RestStep(up, texts, p, required, i, parent, dst[..pos]);
    if i < |required| { StillBelow(up, texts, p, required, i); }
    if cmp < 0 {
      AbsentHere(up, texts, p, required, i);
      pos' := CopyInherited(parent, required[i], lengths[i], dst, pos);
      i' := i + 1;
    } else {
      p' := p + 1;
      if cmp == 0 { i' := i + 1; }
      pos' := Write(dst, pos, texts[p] + [NUL]);
    }
  }

  /** Final pass: copy, in the order of the names. It has to find the same
      missing names as the pass before, since only their lengths are known. */
  method CopyAll(
    up: char -> char, texts: seq<string>, required: seq<string>, parent: map<string, string>,
    envLen: nat, lengths: array<nat>)
    returns (dst: array<char>)
    requires Proper(up) && UsableNames(required) && (forall t | t in texts :: Usable(t))
    requires Sorted(up, texts) && Increasing(up, required)
    requires lengths.Length == |required| && Known(up, texts, required, parent, lengths[..], |required|)
    requires envLen == |Flatten(Merge(up, texts, required, parent))|
    ensures fresh(dst) && dst[..] == Flatten(Merge(up, texts, required, parent)) + [NUL]
  {
    dst := new char[1 + envLen](_ => NUL);
    var pos, p, i := 0, 0, 0;
    ghost var all := Flatten(Merge(up, texts, required, parent));
    assert texts[0..] == texts && required[0..] == required;
    while p < |texts| || i < |required|
      invariant 0 <= pos <= envLen && p <= |texts| && i <= |required|
      invariant pos + |Rest(up, texts, p, required, i, parent)| == envLen
      invariant dst[..pos] + Rest(up, texts, p, required, i, parent) == all
      invariant Below(up, texts, p, required, i)
      decreases |texts| - p + |required| - i
    {
      pos, p, i := CopyNext(up, texts, p, required, i, parent, lengths, dst, pos);
    }
    assert Merge(up, texts[p..], required[i..], parent) == [];
    assert dst[..pos] + [] == dst[..pos];
    dst[pos] := NUL;
  }

  // ----- All of it -----

  lemma InsertedAt(texts: seq<string>, k: nat, text: string, i: nat)
    requires k <= |texts| && i <= |texts|
    ensures (texts[..k] + [text] + texts[k..])[i] == if i < k then texts[i] else if i == k then text else texts[i - 1]
  {
  }

  lemma InsertedInOrder(up: char -> char, texts: seq<string>, k: nat, text: string, i: nat)
    requires Sorted(up, texts) && k <= |texts| && i < |texts|
    requires k > 0 ==> Compare(Key(up, texts[k - 1]), Key(up, text)) <= 0
    requires k < |texts| ==> Compare(Key(up, text), Key(up, texts[k])) <= 0
    ensures if i < k then Compare(Key(up, texts[i]), Key(up, text)) <= 0
            else Compare(Key(up, text), Key(up, texts[i])) <= 0
  {
    if i < k - 1 { CompareIsTransitive(Key(up, texts[i]), Key(up, texts[k - 1]), Key(up, text)); }
    if i > k { CompareIsTransitive(Key(up, text), Key(up, texts[k]), Key(up, texts[i])); }
  }

  lemma InsertSorted(up: char -> char, texts: seq<string>, k: nat, text: string)
    requires Sorted(up, texts) && k <= |texts|
    requires k > 0 ==> Compare(Key(up, texts[k - 1]), Key(up, text)) <= 0
    requires k < |texts| ==> Compare(Key(up, text), Key(up, texts[k])) <= 0
    ensures Sorted(up, texts[..k] + [text] + texts[k..])
  {
    var r := texts[..k] + [text] + texts[k..];
    forall i, j | 0 <= i < j < |r| ensures Compare(Key(up, r[i]), Key(up, r[j])) <= 0 {
      InsertedAt(texts, k, text, i);
      InsertedAt(texts, k, text, j);
      if i == k { InsertedInOrder(up, texts, k, text, j - 1); }
      if j == k { InsertedInOrder(up, texts, k, text, i); }
    }
  }

  lemma InsertContent(texts: seq<string>, k: nat, text: string)
    requires k <= |texts|
    ensures multiset(texts[..k] + [text] + texts[k..]) == multiset(texts) + multiset{text}
  {
    assert texts == texts[..k] + texts[k..];
  }

  /** The name is not empty. */
  predicate Named(text: string) { Name(text) != [] }

  ghost predicate AllNamed(texts: seq<string>) { forall t | t in texts :: Named(t) }

  ghost predicate NoNul(texts: seq<string>) { forall t | t in texts :: NUL !in t }

  /** Put a variable into its place. None is an error: there was something to
      compare it with, and an empty name. */
  method Insert(up: char -> char, texts: seq<string>, text: string) returns (r: Option<seq<string>>)
    requires Proper(up) && Sorted(up, texts) && NoNul(texts) && NUL !in text
    requires |texts| <= 1 || AllNamed(texts)
    ensures r.Some? <==> texts == [] || (AllNamed(texts) && Named(text))
    ensures r.Some? ==> Sorted(up, r.value) && multiset(r.value) == multiset(texts) + multiset{text}
  {
    var k := |texts|;
    while k > 0
      invariant 0 <= k <= |texts|
      invariant k < |texts| ==> Compare(Key(up, text), Key(up, texts[k])) <= 0
      invariant k < |texts| ==> AllNamed(texts) && Named(text)
    {
      assert texts[k - 1] in texts;
      var cmp := EnvCompare(up, Name(texts[k - 1]), Name(text));
      if cmp.None? {
        return None;
      }
      CompareIsOrder(Key(up, texts[k - 1]), Key(up, text));
      if cmp.value <= 0 {
        break;
      }
      k := k - 1;
    }
    InsertSorted(up, texts, k, text);
    InsertContent(texts, k, text);
    r := Some(texts[..k] + [text] + texts[k..]);
  }

  /** qsort: any order of variables with the same name will do. None is an
      error: any order needs a comparison with each of them. */
  method Sort(up: char -> char, texts: seq<string>) returns (r: Option<seq<string>>)
    requires Proper(up) && NoNul(texts)
    ensures r.Some? <==> |texts| <= 1 || AllNamed(texts)
    ensures r.Some? ==> Sorted(up, r.value) && multiset(r.value) == multiset(texts)
  {
    r := Some([]);
    for k := 0 to |texts|
      invariant r.Some? && Sorted(up, r.value) && multiset(r.value) == multiset(texts[..k])
      invariant k <= 1 || AllNamed(texts[..k])
    {
      ghost var so := r.value;
      assert texts[..k + 1] == texts[..k] + [texts[k]];
      SameMembers(so, texts[..k]);
      SameSize(so, texts[..k]);
      r := Insert(up, r.value, texts[k]);
      if r.None? {
        assert !AllNamed(texts);
        return;
      }
    }
    assert texts[..|texts|] == texts;
  }

  lemma SameSize(a: seq<string>, b: seq<string>)
    requires multiset(a) == multiset(b)
    ensures |a| == |b|
  {
    assert |a| == |multiset(a)| == |multiset(b)| == |b|;
  }

  /** The strings of the caller that are variables at all. */
  function Variables(block: seq<string>): seq<string> {
    if block == [] then [] else
    Variables(block[..|block| - 1]) + if '=' in block[|block| - 1] then [block[|block| - 1]] else []
  }

  /** They are the strings with a "=", each as often as it is there. */
  lemma {:induction false} VariablesCount(block: seq<string>, t: string)
    ensures multiset(Variables(block))[t] == if '=' in t then multiset(block)[t] else 0
  {
    if block != [] {
      VariablesCount(block[..|block| - 1], t);
      assert block == block[..|block| - 1] + [block[|block| - 1]];
    }
  }

  lemma {:induction false} VariablesAre(block: seq<string>)
    ensures forall t | t in Variables(block) :: t in block && '=' in t
  {
    if block != [] { VariablesAre(block[..|block| - 1]); }
  }

  lemma {:induction false} MissingOfSame(
    up: char -> char, a: seq<string>, b: seq<string>, required: seq<string>, parent: map<string, string>)
    requires multiset(a) == multiset(b)
    ensures Missing(up, a, required, parent) == Missing(up, b, required, parent)
  {
    assert forall t :: t in a <==> t in multiset(a);
    assert forall t :: t in b <==> t in multiset(b);
    if required != [] { MissingOfSame(up, a, b, required[1..], parent); }
  }

  /** The variables of the caller and the tree id, and the room they need. */
  method Collect(block: seq<string>, treeId: string) returns (mine: seq<string>, len: nat)
    ensures mine == Variables(block) + [treeId] && len == |Flatten(mine)|
  {
    mine, len := [], 0;
    for k := 0 to |block|
      invariant mine == Variables(block[..k]) && len == |Flatten(mine)|
    {
      assert block[..k + 1][..k] == block[..k];
      if '=' in block[k] {
        len := len + |block[k]| + 1;
        FlattenOne(mine, block[k]);
        mine := mine + [block[k]];
      }
    }
    assert block[..|block|] == block;
    FlattenOne(mine, treeId);
    len := len + |treeId| + 1;
    mine := mine + [treeId];
  }

  lemma FlattenOne(texts: seq<string>, text: string)
    ensures |Flatten(texts + [text])| == |Flatten(texts)| + |text| + 1
  {
    FlattenAppend(texts, [text]);
    assert Flatten([text]) == text + [NUL] + [];
  }

  /** The block holds, in the order of their names, the variables of the
      caller, the tree id, and the required variables that are missing. None is
      an error: a variable of the caller has an empty name. */
  method MakeProgramEnv(
    up: char -> char, block: seq<string>, treeId: string, required: seq<string>, parent: map<string, string>)
    returns (dst: Option<array<char>>, ghost texts: seq<string>)
    requires Proper(up) && UsableNames(required) && Increasing(up, required)
    requires '=' in treeId && Usable(treeId) && NoNul(block)
    ensures dst.Some? <==> forall t | t in block && '=' in t :: t[0] != '='
    ensures dst.Some? ==> fresh(dst.value) && dst.value[..] == Flatten(texts) + [NUL]
    ensures dst.Some? && (forall name | name in parent :: NUL !in parent[name]) ==> Strings(dst.value[..]) == texts
    ensures dst.Some? ==> Sorted(up, texts)
    ensures dst.Some? ==> forall t ::
      multiset(texts)[t]
      == (if '=' in t then multiset(block)[t] else 0)
       + (if t == treeId then 1 else 0)
       + (if IsMissing(up, (set u | u in block && '=' in u) + {treeId}, required, parent, t) then 1 else 0)
  {
    texts := [];
    var mine, len := Collect(block, treeId);
    VariablesAre(block);
    NamedAre(block);
    var sorted := Sort(up, mine);
    if sorted.None? {
      return None, [];
    }
    SameMembers(sorted.value, mine);
    SameLength(sorted.value, mine);
    NamedIsUsable(sorted.value);
    var envLen, lengths := MakeRoom(up, sorted.value, required, parent, len);
    var copy := CopyAll(up, sorted.value, required, parent, envLen, lengths);
    dst, texts := Some(copy), Merge(up, sorted.value, required, parent);
    MergeSorted(up, sorted.value, required, parent);
    MergeContent(up, sorted.value, required, parent);
    MissingOfSame(up, sorted.value, mine, required, parent);
    CountsAre(up, block, treeId, required, parent, texts);
    if forall name | name in parent :: NUL !in parent[name] {
      BlockReads(up, block, treeId, required, parent, texts);
    }
  }

  /** How often each string is in the block. */
  ghost predicate Counts(
    up: char -> char, block: seq<string>, treeId: string, required: seq<string>, parent: map<string, string>,
    texts: seq<string>)
  {
    forall t ::
      multiset(texts)[t]
      == (if '=' in t then multiset(block)[t] else 0)
       + (if t == treeId then 1 else 0)
       + (if IsMissing(up, (set u | u in block && '=' in u) + {treeId}, required, parent, t) then 1 else 0)
  }

  lemma CountsAre(
    up: char -> char, block: seq<string>, treeId: string, required: seq<string>, parent: map<string, string>,
    texts: seq<string>)
    requires Increasing(up, required) && NoEquals(required)
    requires var mine := Variables(block) + [treeId];
      multiset(texts) == multiset(mine) + multiset(Missing(up, mine, required, parent))
    ensures Counts(up, block, treeId, required, parent, texts)
  {
    var mine := Variables(block) + [treeId];
    MineIs(block, treeId);
    forall t ensures
      multiset(texts)[t]
      == (if '=' in t then multiset(block)[t] else 0)
       + (if t == treeId then 1 else 0)
       + (if IsMissing(up, (set u | u in block && '=' in u) + {treeId}, required, parent, t) then 1 else 0)
    {
      VariablesCount(block, t);
      MissingCount(up, mine, required, parent, t);
    }
  }

  lemma MineIs(block: seq<string>, treeId: string)
    ensures (set u | u in Variables(block) + [treeId]) == (set u | u in block && '=' in u) + {treeId}
  {
    forall u ensures u in Variables(block) <==> u in block && '=' in u {
      VariablesCount(block, u);
      assert u in Variables(block) <==> u in multiset(Variables(block));
      assert u in block <==> u in multiset(block);
    }
  }

  lemma NamedAre(block: seq<string>)
    ensures AllNamed(Variables(block)) <==> forall t | t in block && '=' in t :: t[0] != '='
  {
    forall t ensures t in Variables(block) <==> t in block && '=' in t {
      VariablesCount(block, t);
      assert t in Variables(block) <==> t in multiset(Variables(block));
      assert t in block <==> t in multiset(block);
    }
    forall t | '=' in t ensures Named(t) <==> t[0] != '=' {
      assert Name(t) + ['='] <= t;
    }
  }

  lemma BlockReads(
    up: char -> char, block: seq<string>, treeId: string, required: seq<string>, parent: map<string, string>,
    texts: seq<string>)
    requires Counts(up, block, treeId, required, parent, texts)
    requires '=' in treeId && Usable(treeId) && NoNul(block) && UsableNames(required)
    requires forall name | name in parent :: NUL !in parent[name]
    ensures Strings(Flatten(texts) + [NUL]) == texts
  {
    forall t | t in texts ensures t != [] && NUL !in t {
      assert t in multiset(texts);
    }
    FlattenReads(texts);
  }

  lemma NamedIsUsable(texts: seq<string>)
    requires AllNamed(texts) && NoNul(texts)
    ensures forall t | t in texts :: Usable(t)
  {
  }

  lemma SameMembers(a: seq<string>, b: seq<string>)
    requires multiset(a) == multiset(b)
    ensures forall t :: t in a <==> t in b
  {
    assert forall t :: t in a <==> t in multiset(a);
    assert forall t :: t in b <==> t in multiset(b);
  }

  lemma CutAt(s: seq<string>, k: nat)
    requires k < |s|
    ensures multiset(s) == multiset{s[k]} + multiset(s[..k] + s[k + 1..])
  {
    assert s == s[..k] + [s[k]] + s[k + 1..];
  }

  /** The order does not matter for the room that is needed. */
  lemma {:induction false} SameLength(a: seq<string>, b: seq<string>)
    requires multiset(a) == multiset(b)
    ensures |Flatten(a)| == |Flatten(b)|
  {
    if a == [] {
      assert |b| == |multiset(b)| == |multiset(a)| == 0;
    } else {
      assert a[0] in multiset(a);
      var k :| 0 <= k < |b| && b[k] == a[0];
      var rest := b[..k] + b[k + 1..];
      assert b == b[..k] + ([b[k]] + b[k + 1..]);
      CutFirst(a);
      CutAt(b, k);
      assert multiset(a[1..]) == multiset(a) - multiset{a[0]} == multiset(rest);
      SameLength(a[1..], rest);
      FlattenAppend(b[..k], [b[k]] + b[k + 1..]);
      FlattenAppend(b[..k], b[k + 1..]);
      FlattenAppend([b[k]], b[k + 1..]);
    }
  }

  /** Variables that a new process needs; in order. */
  const REQUIRED: seq<string> := [
    "HOMEDRIVE", "HOMEPATH", "LOGONSERVER", "PATH", "SYSTEMDRIVE", "SYSTEMROOT",
    "TEMP", "USERDOMAIN", "USERNAME", "USERPROFILE", "WINDIR"]

  lemma {:induction false} UpperFixed(up: char -> char, name: string)
    requires forall c | c in name :: up(c) == c
    ensures Upper(up, name) == name
  {
    assert forall k | 0 <= k < |name| :: name[k] in name;
  }

  /** Names whose order shows in the character at k. */
  lemma {:induction false} FirstDifference(a: string, b: string, k: nat)
    requires k < |a| && k < |b| && a[..k] == b[..k] && a[k] < b[k]
    ensures Compare(a, b) < 0
  {
    if k > 0 {
      assert a[0] == a[..k][0] == b[..k][0] == b[0];
      assert a[1..][..k - 1] == a[..k][1..] == b[..k][1..] == b[1..][..k - 1];
      FirstDifference(a[1..], b[1..], k - 1);
    }
  }

  predicate Letters(name: string) { name != [] && forall k | 0 <= k < |name| :: 'A' <= name[k] <= 'Z' }

  lemma RequiredAreLetters()
    ensures forall k | 0 <= k < |REQUIRED| :: Letters(REQUIRED[k])
  {
    assert Letters("HOMEDRIVE") && Letters("HOMEPATH") && Letters("LOGONSERVER") && Letters("PATH");
    assert Letters("SYSTEMDRIVE") && Letters("SYSTEMROOT") && Letters("TEMP") && Letters("USERDOMAIN");
    assert Letters("USERNAME") && Letters("USERPROFILE") && Letters("WINDIR");
  }

  lemma NextIsGreater(k: nat)
    requires k < |REQUIRED| - 1
    ensures Compare(REQUIRED[k], REQUIRED[k + 1]) < 0
  {
    var d := if k == 0 || k == 7 || k == 8 then 4 else if k == 4 then 6 else 0;
    assert REQUIRED[k][..d] == REQUIRED[k + 1][..d];
    FirstDifference(REQUIRED[k], REQUIRED[k + 1], d);
  }

  /** The required names can be used as they are: in upper case, they are in
      increasing order. */
  lemma RequiredIsInOrder(up: char -> char)
    requires forall c | 'A' <= c <= 'Z' :: up(c) == c
    ensures UsableNames(REQUIRED) && Increasing(up, REQUIRED)
    ensures (set name | name in REQUIRED) == {
      "PATH", "TEMP", "HOMEDRIVE", "HOMEPATH", "SYSTEMDRIVE", "SYSTEMROOT", "WINDIR", "LOGONSERVER",
      "USERDOMAIN", "USERNAME", "USERPROFILE"}
  {
    RequiredAreLetters();
    forall k | 0 <= k < |REQUIRED| - 1 ensures Compare(REQUIRED[k], REQUIRED[k + 1]) < 0 {
      NextIsGreater(k);
    }
    UppersInOrder(up, REQUIRED);
  }

  lemma UppersInOrder(up: char -> char, names: seq<string>)
    requires forall c | 'A' <= c <= 'Z' :: up(c) == c
    requires forall k | 0 <= k < |names| :: Letters(names[k])
    requires forall k | 0 <= k < |names| - 1 :: Compare(names[k], names[k + 1]) < 0
    ensures UsableNames(names) && Increasing(up, names)
  {
    forall k | 0 <= k < |names| - 1 ensures Compare(Upper(up, names[k]), Upper(up, names[k + 1])) < 0 {
      UpperFixed(up, names[k]);
      UpperFixed(up, names[k + 1]);
    }
    NeighboursSuffice(up, names);
  }

  lemma {:induction false} NeighboursSuffice(up: char -> char, names: seq<string>)
    requires forall k | 0 <= k < |names| - 1 :: Compare(Upper(up, names[k]), Upper(up, names[k + 1])) < 0
    ensures Increasing(up, names)
  {
    forall i, j | 0 <= i < j < |names| ensures Compare(Upper(up, names[i]), Upper(up, names[j])) < 0 {
      Between(up, names, i, j);
    }
  }

  lemma {:induction false} Between(up: char -> char, names: seq<string>, i: nat, j: nat)
    requires forall k | 0 <= k < |names| - 1 :: Compare(Upper(up, names[k]), Upper(up, names[k + 1])) < 0
    requires i < j < |names|
    ensures Compare(Upper(up, names[i]), Upper(up, names[j])) < 0
  {
    if i + 1 < j {
      Between(up, names, i, j - 1);
      CompareIsTransitive(Upper(up, names[i]), Upper(up, names[j - 1]), Upper(up, names[j]));
    }
    assert Compare(Upper(up, names[j - 1]), Upper(up, names[j - 1 + 1])) < 0;
  }
}
