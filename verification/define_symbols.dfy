/** Editing the editor's scripting-define string, a `;`-separated list of
    symbols. Reading and writing the string in the player settings are the
    input and output of these functions. */
module DefineSymbols {
  import opened Wrappers
  import opened ExtensionMethods

  /** The list separator. */
  const Sep: char := ';'

  predicate StartsWith(s: string, prefix: string)
  {
    |prefix| <= |s| && s[..|prefix|] == prefix
  }

  /** The runtime's ordinal `Contains`: `sub` occurs somewhere in `s`. The
      empty string occurs in every string. */
  predicate Contains(s: string, sub: string)
  {
    exists i :: 0 <= i <= |s| && OccursAt(s, sub, i)
  }

  predicate OccursAt(s: string, sub: string, i: int)
  {
    0 <= i && i + |sub| <= |s| && s[i..i + |sub|] == sub
  }

  lemma ContainsAt(s: string, sub: string, i: int)
    requires OccursAt(s, sub, i)
    ensures Contains(s, sub)
  {
  }

  /** Appending text keeps every occurrence. */
  lemma ContainsExtend(s: string, t: string, sub: string)
    requires Contains(s, sub)
    ensures Contains(s + t, sub)
  {
    var i :| 0 <= i <= |s| && OccursAt(s, sub, i);
    assert (s + t)[i..i + |sub|] == s[i..i + |sub|];
    ContainsAt(s + t, sub, i);
  }

  // ---------------------------------------------------------------- add

  /** One step of `AddDefineSymbolIfMissing`: append `;def` unless `def` is
      empty or already occurs anywhere in the string. */
  function AddStep(str: string, def: string): (r: string)
    ensures StartsWith(r, str)
    ensures Contains(r, def)
    ensures def == "" || Contains(str, def) <==> r == str
  {
    if def != "" && !Contains(str, def) then
      var appended := str + [Sep] + def;
      assert appended[|str| + 1..|str| + 1 + |def|] == def;
      ContainsAt(appended, def, |str| + 1);
      assert (str + [Sep] + def)[..|str|] == str;
      str + [Sep] + def
    else
      if def == "" then ContainsAt(str, def, 0); str else str
  }

  /** `AddDefineSymbolIfMissing` as a fold over the requested symbols. */
  function AddDefines(str: string, defs: seq<string>): (r: string)
    decreases |defs|
  {
    if |defs| == 0 then str else AddDefines(AddStep(str, defs[0]), defs[1..])
  }

  /** The method form, with the loop of the original. */
  method AddDefineSymbolIfMissing(current: string, definesToSet: seq<string>) returns (str: string)
    ensures str == AddDefines(current, definesToSet)
    ensures StartsWith(str, current)
    ensures forall i :: 0 <= i < |definesToSet| ==> Contains(str, definesToSet[i])
  {
    str := current;
    var i := 0;
    while i < |definesToSet|
      invariant 0 <= i <= |definesToSet|
      invariant AddDefines(current, definesToSet) == AddDefines(str, definesToSet[i..])
    {
      assert definesToSet[i..][1..] == definesToSet[i + 1..];
      str := AddStep(str, definesToSet[i]);
      i := i + 1;
    }
    assert definesToSet[i..] == [];
    AddKeepsPrefix(current, definesToSet);
    AddContainsAll(current, definesToSet);
  }

  /** Adding only appends: the original string is a prefix of the result. */
  lemma {:induction false} AddKeepsPrefix(str: string, defs: seq<string>)
    ensures StartsWith(AddDefines(str, defs), str)
    decreases |defs|
  {
    if |defs| > 0 {
      var next := AddStep(str, defs[0]);
      AddKeepsPrefix(next, defs[1..]);
      var r := AddDefines(next, defs[1..]);
      assert r[..|str|] == r[..|next|][..|str|];
    }
  }

  /** Every requested symbol occurs in the result. */
  lemma {:induction false} AddContainsAll(str: string, defs: seq<string>)
    ensures forall i :: 0 <= i < |defs| ==> Contains(AddDefines(str, defs), defs[i])
    decreases |defs|
  {
    if |defs| > 0 {
      var next := AddStep(str, defs[0]);
      AddContainsAll(next, defs[1..]);
      var r := AddDefines(next, defs[1..]);
      AddKeepsPrefix(next, defs[1..]);
      assert r == next + r[|next|..];
      ContainsExtend(next, r[|next|..], defs[0]);
      forall i | 1 <= i < |defs|
        ensures Contains(r, defs[i])
      {
        assert defs[i] == defs[1..][i - 1];
      }
    }
  }

  /** When every requested symbol already occurs, nothing is added. */
  lemma {:induction false} AddNothingMissing(str: string, defs: seq<string>)
    requires forall i :: 0 <= i < |defs| ==> Contains(str, defs[i])
    ensures AddDefines(str, defs) == str
    decreases |defs|
  {
    if |defs| > 0 {
      assert AddStep(str, defs[0]) == str;
      AddNothingMissing(str, defs[1..]);
    }
  }

  /** Adding is idempotent. */
  lemma AddIdempotent(str: string, defs: seq<string>)
    ensures AddDefines(AddDefines(str, defs), defs) == AddDefines(str, defs)
  {
    AddContainsAll(str, defs);
    AddNothingMissing(AddDefines(str, defs), defs);
  }

  /** A symbol occurring inside a longer one counts as present, and a symbol
      requested twice is appended once. */
  lemma AddExamples()
    ensures AddDefines("CURVEDUI_TMP", ["CURVEDUI"]) == "CURVEDUI_TMP"
    ensures AddDefines("A", ["B", "B"]) == "A;B"
  {
    ContainsAt("CURVEDUI_TMP", "CURVEDUI", 0);
    var once := AddStep("A", "B");
    assert !Contains("A", "B");
    assert once == "A;B";
    ContainsAt("A;B", "B", 2);
  }

  // ---------------------------------------------------------------- contains

  /** `ContainsDefineSymbol`: a plain substring test on the whole string. */
  function ContainsDefineSymbol(allDefines: string, defineSymbol: string): (r: bool)
    ensures r <==> Contains(allDefines, defineSymbol)
    ensures r ==> |defineSymbol| <= |allDefines|
    ensures StartsWith(allDefines, defineSymbol) ==> r
    ensures defineSymbol == "" ==> r
  {
    if StartsWith(allDefines, defineSymbol) then ContainsAt(allDefines, defineSymbol, 0); true
    else Contains(allDefines, defineSymbol)
  }

  /** The first piece of a split is a prefix of the string. */
  lemma {:induction false} SplitFirstIsPrefix(s: string)
    ensures StartsWith(s, Split(s)[0])
    decreases |s|
  {
    if |s| > 0 && s[0] != Sep {
      SplitFirstIsPrefix(s[1..]);
      var first := Split(s[1..])[0];
      assert s[..1 + |first|] == [s[0]] + s[1..][..|first|];
    }
  }

  /** Every symbol of the list is found, so the test never misses a symbol
      that is present. */
  lemma {:induction false} ListedSymbolIsContained(allDefines: string, x: string)
    requires x in Split(allDefines)
    ensures ContainsDefineSymbol(allDefines, x)
    decreases |allDefines|
  {
    if |allDefines| > 0 {
      var rest := Split(allDefines[1..]);
      if x in rest {
        ListedSymbolIsContained(allDefines[1..], x);
        ContainsInTail(allDefines, x);
      } else if allDefines[0] != Sep && x == [allDefines[0]] + rest[0] {
        SplitFirstIsPrefix(allDefines);
        ContainsAt(allDefines, x, 0);
      } else {
        assert x == "";
        ContainsAt(allDefines, x, 0);
      }
    } else {
      ContainsAt(allDefines, x, 0);
    }
  }

  /** The test is not a test for a listed symbol: a symbol that only ends a
      longer one is reported present though it is not in the list. */
  lemma InsideLongerSymbol(head: string, sym: string)
    requires head != "" && Sep !in head && Sep !in sym
    ensures ContainsDefineSymbol(head + sym, sym)
    ensures sym !in Split(head + sym)
  {
    var s := head + sym;
    assert s[|head|..|head| + |sym|] == sym;
    ContainsAt(s, sym, |head|);
    SplitPlain(s);
  }

  /** Likewise text that spans a separator is reported present. */
  lemma SpanningSeparator(a: string, b: string)
    requires Sep !in a && Sep !in b
    ensures ContainsDefineSymbol(a + [Sep] + b, a + [Sep] + b)
    ensures a + [Sep] + b !in Split(a + [Sep] + b)
  {
    var s := a + [Sep] + b;
    assert s[..|s|] == s;
    ContainsAt(s, s, 0);
    SplitTwo(a, b);
    assert s[|a|] == Sep;
  }

  /** "CURVEDUI" is found in "MY_CURVEDUI". */
  lemma ContainsDefineSymbolExample()
    ensures ContainsDefineSymbol("MY_CURVEDUI", "CURVEDUI")
  {
    var head, sym := "MY_", CurvedUIPrefix;
    ContainsExampleParts(head, sym);
    InsideLongerSymbol(head, sym);
  }

  lemma ContainsExampleParts(head: string, sym: string)
    requires head == "MY_" && sym == CurvedUIPrefix
    ensures head + sym == "MY_CURVEDUI" && sym == "CURVEDUI"
    ensures head != "" && Sep !in head && Sep !in sym
  {
  }

  // ---------------------------------------------------------------- split and join

  /** The runtime's `Split(';')`: always at least one piece, empty pieces kept. */
  function Split(s: string): (r: seq<string>)
    ensures |r| >= 1
    ensures forall i :: 0 <= i < |r| ==> Sep !in r[i]
    decreases |s|
  {
    if |s| == 0 then [""]
    else
      var rest := Split(s[1..]);
      if s[0] == Sep then [""] + rest
      else
        var first := [s[0]] + rest[0];
        assert forall i :: 1 <= i < |rest| ==> ([first] + rest[1..])[i] == rest[i];
        [first] + rest[1..]
  }

  /** Joining the pieces gives the string back. */
  lemma {:induction false} JoinSplit(s: string)
    ensures Join(Split(s), [Sep]) == s
    decreases |s|
  {
    if |s| > 0 {
      JoinSplit(s[1..]);
      var rest := Split(s[1..]);
      if s[0] == Sep {
        JoinAfterEmpty(rest);
        assert s == [Sep] + s[1..];
      } else {
        JoinExtendFirst(s[0], rest);
        assert s == [s[0]] + s[1..];
      }
    }
  }

  /** An empty first piece contributes only its separator. */
  lemma JoinAfterEmpty(rest: seq<string>)
    requires |rest| >= 1
    ensures Join([""] + rest, [Sep]) == [Sep] + Join(rest, [Sep])
  {
    var parts: seq<string> := [""] + rest;
    JoinFront(parts, [Sep]);
    assert parts[1..] == rest;
  }

  /** Prepending a character to the first piece prepends it to the join. */
  lemma JoinExtendFirst(c: char, rest: seq<string>)
    requires |rest| >= 1
    ensures Join([[c] + rest[0]] + rest[1..], [Sep]) == [c] + Join(rest, [Sep])
  {
    if |rest| == 1 {
      JoinSingle([[c] + rest[0]] + rest[1..]);
      JoinSingle(rest);
    } else {
      JoinExtendFirstMany(c, rest);
    }
  }

  lemma JoinSingle(parts: seq<string>)
    requires |parts| == 1
    ensures Join(parts, [Sep]) == parts[0]
  {
  }

  lemma JoinExtendFirstMany(c: char, rest: seq<string>)
    requires |rest| >= 2
    ensures Join([[c] + rest[0]] + rest[1..], [Sep]) == [c] + Join(rest, [Sep])
  {
    var parts: seq<string> := [[c] + rest[0]] + rest[1..];
    JoinSameTail(c, parts, rest);
  }

  lemma JoinSameTail(c: char, parts: seq<string>, rest: seq<string>)
    requires |rest| >= 2 && |parts| == |rest|
    requires parts[0] == [c] + rest[0] && parts[1..] == rest[1..]
    ensures Join(parts, [Sep]) == [c] + Join(rest, [Sep])
  {
    JoinConsFront(parts, [c] + rest[0], rest[1..]);
    JoinConsFront(rest, rest[0], rest[1..]);
    PrependShared(c, Join(parts, [Sep]), Join(rest, [Sep]), rest[0], Join(rest[1..], [Sep]));
  }

  lemma PrependShared(c: char, x: string, y: string, first: string, tail: string)
    requires x == ([c] + first) + [Sep] + tail && y == first + [Sep] + tail
    ensures x == [c] + y
  {
  }

  /** The join of a first piece followed by at least one more. */
  lemma JoinConsFront(parts: seq<string>, first: string, more: seq<string>)
    requires |more| >= 1 && parts == [first] + more
    ensures Join(parts, [Sep]) == first + [Sep] + Join(more, [Sep])
  {
    JoinFront(parts, [Sep]);
    assert parts[1..] == more;
  }

  /** A piece without a separator splits to itself. */
  lemma {:induction false} SplitPlain(a: string)
    requires Sep !in a
    ensures Split(a) == [a]
    decreases |a|
  {
    if |a| > 0 {
      assert a[1..] + [] == a[1..];
      SplitPlain(a[1..]);
      assert [a[0]] + a[1..] == a;
    }
  }

  /** Splitting at the first separator. */
  lemma {:induction false} SplitAtFirst(a: string, b: string)
    requires Sep !in a
    ensures Split(a + [Sep] + b) == [a] + Split(b)
    decreases |a|
  {
    if |a| == 0 {
      assert a + [Sep] + b == [Sep] + b;
      assert ([Sep] + b)[1..] == b;
    } else {
      assert (a + [Sep] + b)[1..] == a[1..] + [Sep] + b;
      SplitAtFirst(a[1..], b);
      assert [a[0]] + a[1..] == a;
    }
  }

  /** Splitting a join of separator-free pieces gives the pieces back. */
  lemma {:induction false} SplitJoin(parts: seq<string>)
    requires |parts| >= 1
    requires forall i :: 0 <= i < |parts| ==> Sep !in parts[i]
    ensures Split(Join(parts, [Sep])) == parts
    decreases |parts|
  {
    if |parts| == 1 {
      SplitPlain(parts[0]);
    } else {
      SplitJoin(parts[1..]);
      JoinFront(parts, [Sep]);
      SplitAtFirst(parts[0], Join(parts[1..], [Sep]));
      assert [parts[0]] + parts[1..] == parts;
    }
  }

  // ---------------------------------------------------------------- remove

  /** The symbols a removal targets: the pieces that start with the prefix,
      in order. */
  function Candidates(pieces: seq<string>, prefix: string): (r: seq<string>)
    ensures forall x :: x in r <==> x in pieces && StartsWith(x, prefix)
    decreases |pieces|
  {
    if |pieces| == 0 then []
    else
      var rest := Candidates(pieces[1..], prefix);
      assert forall x :: x in pieces <==> x == pieces[0] || x in pieces[1..];
      if StartsWith(pieces[0], prefix) then [pieces[0]] + rest else rest
  }

  /** The pieces a removal keeps: those that do not start with the prefix. */
  function Survivors(pieces: seq<string>, prefix: string): (r: seq<string>)
    ensures forall x :: x in r <==> x in pieces && !StartsWith(x, prefix)
    ensures forall i :: 0 <= i < |r| ==> r[i] in pieces
    decreases |pieces|
  {
    if |pieces| == 0 then []
    else
      var rest := Survivors(pieces[1..], prefix);
      assert forall x :: x in pieces <==> x == pieces[0] || x in pieces[1..];
      if StartsWith(pieces[0], prefix) then rest else [pieces[0]] + rest
  }

  /** The runtime's `Replace(oldValue, newValue)`: one left-to-right pass over
      non-overlapping occurrences. An empty `oldValue` is an argument error. */
  function Replace(s: string, oldValue: string, newValue: string): (r: Result<string, string>)
    ensures r.Ok? <==> oldValue != ""
    ensures r.Ok? && !Contains(s, oldValue) ==> r.value == s
    ensures r.Ok? && |newValue| <= |oldValue| ==> |r.value| <= |s|
  {
    if oldValue == "" then Err("oldValue is empty") else Ok(ReplaceAll(s, oldValue, newValue))
  }

  function ReplaceAll(s: string, oldValue: string, newValue: string): (r: string)
    requires oldValue != ""
    ensures !Contains(s, oldValue) ==> r == s
    ensures |newValue| <= |oldValue| ==> |r| <= |s|
    decreases |s|
  {
    if |s| < |oldValue| then s
    else if s[..|oldValue|] == oldValue then
      ContainsAt(s, oldValue, 0);
      newValue + ReplaceAll(s[|oldValue|..], oldValue, newValue)
    else
      var rest := ReplaceAll(s[1..], oldValue, newValue);
      ContainsInTail(s, oldValue);
      [s[0]] + rest
  }

  lemma ContainsInTail(s: string, sub: string)
    requires |s| > 0
    ensures Contains(s[1..], sub) ==> Contains(s, sub)
  {
    if Contains(s[1..], sub) {
      var i :| 0 <= i <= |s[1..]| && OccursAt(s[1..], sub, i);
      assert s[i + 1..i + 1 + |sub|] == s[1..][i..i + |sub|];
      ContainsAt(s, sub, i + 1);
    }
  }

  /** A string without the first character of `oldValue` has nothing to
      replace. */
  lemma {:induction false} ReplaceAbsent(s: string, oldValue: string, newValue: string)
    requires oldValue != "" && oldValue[0] !in s
    ensures ReplaceAll(s, oldValue, newValue) == s
    decreases |s|
  {
    if |s| >= |oldValue| {
      assert s[..|oldValue|][0] == s[0];
      ReplaceAbsent(s[1..], oldValue, newValue);
      assert [s[0]] + s[1..] == s;
    }
  }

  /** The loop of `RemoveDefineSymbolsStartingWith`: for each candidate,
      delete every occurrence of it anywhere in the string, then collapse
      `;;` to `;` in one pass. */
  function RemoveEach(all: string, candidates: seq<string>): (r: Result<string, string>)
    ensures r.Ok? <==> "" !in candidates
    ensures r.Ok? ==> |r.value| <= |all|
    decreases |candidates|
  {
    if |candidates| == 0 then Ok(all)
    else
      assert "" in candidates <==> candidates[0] == "" || "" in candidates[1..];
      match Replace(all, candidates[0], "")
      case Err(e) => Err(e)
      case Ok(removed) => RemoveEach(ReplaceAll(removed, [Sep, Sep], [Sep]), candidates[1..])
  }

  /** `RemoveDefineSymbolsStartingWith`. */
  function RemoveDefineSymbolsStartingWith(all: string, prefix: string): (r: Result<string, string>)
    ensures r.Ok? <==> "" !in Candidates(Split(all), prefix)
    ensures prefix != "" ==> r.Ok? && |r.value| <= |all|
  {
    RemoveEach(all, Candidates(Split(all), prefix))
  }

  /** The prefix every CurvedUI symbol carries. */
  const CurvedUIPrefix: string := "CURVEDUI"

  /** `ClearCurvedUIDefineSymbols`. */
  function ClearCurvedUIDefineSymbols(all: string): (r: string)
    ensures |r| <= |all|
    ensures !Contains(all, CurvedUIPrefix) ==> r == all
  {
    var res := RemoveDefineSymbolsStartingWith(all, CurvedUIPrefix);
    assert !Contains(all, CurvedUIPrefix) ==> res == Ok(all) by {
      if !Contains(all, CurvedUIPrefix) {
        NoCandidatesWithout(all, CurvedUIPrefix);
      }
    }
    res.value
  }

  /** A list in which the prefix occurs nowhere has no symbol starting with it. */
  lemma NoCandidatesWithout(all: string, prefix: string)
    requires !Contains(all, prefix)
    ensures Candidates(Split(all), prefix) == []
  {
    var c := Candidates(Split(all), prefix);
    if c != [] {
      var x := c[0];
      assert x in c;
      ListedSymbolIsContained(all, x);
      var i :| 0 <= i <= |all| && OccursAt(all, x, i);
      assert all[i..i + |prefix|] == x[..|prefix|];
      ContainsAt(all, prefix, i);
    }
  }

  /** Removing the first symbol leaves the separator that followed it, and a
      symbol without the prefix survives. */
  lemma ClearExample()
    ensures ClearCurvedUIDefineSymbols("CURVEDUI_TMP;UNITY_CCU") == ";UNITY_CCU"
  {
    var first, second := "CURVEDUI_TMP", "UNITY_CCU";
    ClearExampleParts(first, second);
    RemoveFirstOfTwo(first, second, CurvedUIPrefix);
    CollapseLeading(second);
  }

  lemma ClearExampleParts(first: string, second: string)
    requires first == "CURVEDUI_TMP" && second == "UNITY_CCU"
    ensures first + [Sep] + second == "CURVEDUI_TMP;UNITY_CCU" && [Sep] + second == ";UNITY_CCU"
    ensures Sep !in first && Sep !in second
    ensures StartsWith(first, CurvedUIPrefix) && !StartsWith(second, CurvedUIPrefix)
    ensures ReplaceAll([Sep] + second, first, "") == [Sep] + second
  {
    assert first[..8] == CurvedUIPrefix;
    assert second[0] != CurvedUIPrefix[0];
    assert |[Sep] + second| < |first|;
  }

  /** As written, a candidate is deleted wherever it occurs, including inside
      a symbol that does not start with the prefix. */
  lemma RemovalEatsInsideOtherSymbols()
    ensures RemoveDefineSymbolsStartingWith("CURVEDUI;MY_CURVEDUI", CurvedUIPrefix) == Ok(";MY_")
  {
    var first, second, head := CurvedUIPrefix, "MY_" + CurvedUIPrefix, "MY_";
    RemovalExampleParts(first, second, head);
    RemoveFirstOfTwo(first, second, CurvedUIPrefix);
    DeleteTrailing([Sep] + head, first);
    CollapseLeading(head);
  }

  lemma RemovalExampleParts(first: string, second: string, head: string)
    requires first == CurvedUIPrefix && head == "MY_" && second == head + CurvedUIPrefix
    ensures first + [Sep] + second == "CURVEDUI;MY_CURVEDUI" && [Sep] + head == ";MY_"
    ensures Sep !in first && Sep !in second && Sep !in head && first[0] !in [Sep] + head
    ensures StartsWith(first, CurvedUIPrefix) && !StartsWith(second, CurvedUIPrefix)
    ensures [Sep] + second == ([Sep] + head) + first
  {
    assert second[0] != CurvedUIPrefix[0];
  }

  /** Two symbols of which only the first carries the prefix: the first is
      deleted from the whole string and `;;` collapsed once. */
  lemma RemoveFirstOfTwo(first: string, second: string, prefix: string)
    requires Sep !in first && Sep !in second && first != ""
    requires StartsWith(first, prefix) && !StartsWith(second, prefix)
    ensures RemoveDefineSymbolsStartingWith(first + [Sep] + second, prefix) ==
            Ok(ReplaceAll(ReplaceAll([Sep] + second, first, ""), [Sep, Sep], [Sep]))
  {
    var all := first + [Sep] + second;
    SplitTwo(first, second);
    OnlyFirstCandidate(first, second, prefix);
    RemoveOne(all, first);
    assert all == first + ([Sep] + second);
    DeleteLeading(first, [Sep] + second);
  }

  lemma OnlyFirstCandidate(first: string, second: string, prefix: string)
    requires StartsWith(first, prefix) && !StartsWith(second, prefix)
    ensures Candidates([first, second], prefix) == [first]
  {
    var pieces: seq<string> := [first, second];
    assert pieces[1..] == [second] && pieces[1..][1..] == [];
    assert Candidates(pieces[1..][1..], prefix) == [];
    assert Candidates(pieces[1..], prefix) == [];
  }

  lemma RemoveOne(all: string, c: string)
    requires c != ""
    ensures RemoveEach(all, [c]) == Ok(ReplaceAll(ReplaceAll(all, c, ""), [Sep, Sep], [Sep]))
  {
    var cands: seq<string> := [c];
    assert cands[1..] == [];
  }

  lemma SplitTwo(a: string, b: string)
    requires Sep !in a && Sep !in b
    ensures Split(a + [Sep] + b) == [a, b]
  {
    SplitAtFirst(a, b);
    SplitPlain(b);
  }

  /** Deleting a symbol that starts the string, where the rest does not
      contain it. */
  lemma DeleteLeading(d: string, rest: string)
    requires d != ""
    ensures ReplaceAll(d + rest, d, "") == ReplaceAll(rest, d, "")
  {
    assert (d + rest)[..|d|] == d && (d + rest)[|d|..] == rest;
  }

  /** Deleting a symbol that ends the string, where the text before it does
      not contain its first character. */
  lemma {:induction false} DeleteTrailing(head: string, d: string)
    requires d != "" && d[0] !in head
    ensures ReplaceAll(head + d, d, "") == head
    decreases |head|
  {
    if |head| == 0 {
      assert head + d == d && d[|d|..] == "";
    } else {
      assert (head + d)[..|d|][0] == head[0];
      assert (head + d)[1..] == head[1..] + d;
      DeleteTrailing(head[1..], d);
      assert [head[0]] + head[1..] == head;
    }
  }

  /** A leading separator followed by a separator-free symbol has no `;;`. */
  lemma CollapseLeading(s: string)
    requires Sep !in s
    ensures ReplaceAll([Sep] + s, [Sep, Sep], [Sep]) == [Sep] + s
  {
    ReplaceAbsent(s, [Sep, Sep], [Sep]);
    if |s| >= 1 {
      assert ([Sep] + s)[..2][1] != Sep;
    }
    assert ([Sep] + s)[1..] == s;
  }

  /** Removal by whole symbol: the pieces that do not start with the prefix,
      joined again. */
  function RemoveSymbolsStartingWith(all: string, prefix: string): (r: string)
  {
    Join(Survivors(Split(all), prefix), [Sep])
  }

  /** The symbol-wise removal keeps every other symbol intact and in order,
      and drops every symbol that starts with the prefix. */
  lemma RemoveSymbolsKeepsOthers(all: string, prefix: string)
    requires |Survivors(Split(all), prefix)| >= 1
    ensures Split(RemoveSymbolsStartingWith(all, prefix)) == Survivors(Split(all), prefix)
    ensures forall x :: x in Split(RemoveSymbolsStartingWith(all, prefix)) <==>
              x in Split(all) && !StartsWith(x, prefix)
  {
    var kept := Survivors(Split(all), prefix);
    SplitJoin(kept);
  }
}
