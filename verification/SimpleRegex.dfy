/**
 The simple regular expressions of gtest-port.cc: what the validator accepts, the language of
 an accepted pattern, and the backtracking matcher. A C string is a string without its NUL.
 */
module SimpleRegex {
  import opened Common
  import opened CharClasses

  // ---- Patterns and their language ----

  datatype Count = Once | Optional | Star | Plus

  /** One character class, written c or \c, and how often it may occur. */
  datatype Item = Item(escaped: bool, c: char, count: Count)

  datatype Pattern = Pattern(atStart: bool, items: seq<Item>, atEnd: bool)

  predicate GoodItem(it: Item) {
    if it.escaped then Punctuation(it.c) || EscapeLetter(it.c) else !Meta(it.c)
  }

  predicate GoodItems(items: seq<Item>) {
    forall i :: 0 <= i < |items| ==> GoodItem(items[i])
  }

  function CountText(n: Count): string {
    match n
    case Once => ""
    case Optional => "?"
    case Star => "*"
    case Plus => "+"
  }

  function AtomText(it: Item): string {
    if it.escaped then ['\\', it.c] else [it.c]
  }

  function ItemsText(items: seq<Item>, atEnd: bool): string {
    if items == [] then if atEnd then "$" else ""
    else AtomText(items[0]) + (CountText(items[0].count) + ItemsText(items[1..], atEnd))
  }

  function PatternText(p: Pattern): string {
    (if p.atStart then "^" else "") + ItemsText(p.items, p.atEnd)
  }

  predicate AllMatch(it: Item, w: string) {
    forall i :: 0 <= i < |w| ==> InClass(it.escaped, it.c, w[i])
  }

  predicate LengthAllowed(n: Count, k: nat) {
    match n
    case Once => k == 1
    case Optional => k <= 1
    case Star => true
    case Plus => k >= 1
  }

  /** w is in the language of one item. */
  predicate InItem(it: Item, w: string) {
    LengthAllowed(it.count, |w|) && AllMatch(it, w)
  }

  /** w is in the language of the items one after the other. */
  ghost predicate InItems(items: seq<Item>, w: string)
    decreases |items|
  {
    if items == [] then w == ""
    else exists k :: 0 <= k <= |w| && InItem(items[0], w[..k]) && InItems(items[1..], w[k..])
  }

  /** Some prefix of s, the whole of it with an end anchor, is in the language. */
  ghost predicate MatchesHead(items: seq<Item>, atEnd: bool, s: string) {
    exists k :: 0 <= k <= |s| && InItems(items, s[..k]) && (atEnd ==> k == |s|)
  }

  /** Some substring of s is in the language, where the anchors allow it. */
  ghost predicate Matches(p: Pattern, s: string) {
    exists i :: 0 <= i <= |s| && (p.atStart ==> i == 0) && MatchesHead(p.items, p.atEnd, s[i..])
  }

  // ---- What the validator accepts ----

  /** The checks of ValidateRegex from one position on; `rep` says that a repetition may follow. */
  predicate Accepted(s: string, first: bool, rep: bool)
    decreases |s|
  {
    if s == "" then true
    else if s[0] == '\\' then
      |s| >= 2 && IsValidEscape(s[1]) && Accepted(s[2..], false, true)
    else
      && !(s[0] == '^' && !first)
      && !(s[0] == '$' && |s| > 1)
      && !IsUnsupported(s[0])
      && !(IsRepeat(s[0]) && !rep)
      && Accepted(s[1..], false, !NotRepeatable(s[0]))
  }

  predicate Valid(regex: string) {
    Accepted(regex, true, false)
  }

  method ValidateRegex(regex: Option<string>) returns (isValid: bool)
    ensures isValid <==> regex.Some? && Valid(regex.value)
  {
    if regex.None? {
      return false;
    }
    var s := regex.value;
    isValid := true;
    var prevRepeatable := false;
    var i := 0;
    while i < |s|
      invariant 0 <= i <= |s|
      invariant Valid(s) <==> isValid && Accepted(s[i..], i == 0, prevRepeatable)
    {
      if s[i] == '\\' {
        i := i + 1;
        if i == |s| {
          return false;
        }
        if !IsValidEscape(s[i]) {
          isValid := false;
        }
        prevRepeatable := true;
        assert s[i - 1..][2..] == s[i + 1..];
      } else {
        var ch := s[i];
        if ch == '^' && i > 0 {
          isValid := false;
        } else if ch == '$' && i + 1 < |s| {
          isValid := false;
        } else if IsUnsupported(ch) {
          isValid := false;
        } else if IsRepeat(ch) && !prevRepeatable {
          isValid := false;
        }
        prevRepeatable := !NotRepeatable(ch);
        assert s[i..][1..] == s[i + 1..];
      }
      i := i + 1;
    }
  }

  function CountOf(c: char): Count {
    match c
    case '?' => Optional
    case '*' => Star
    case '+' => Plus
    case _ => Once
  }

  /** The first item of a text, and the text behind it. */
  function FirstOf(s: string): (Item, string)
    requires s != "" && (s[0] == '\\' ==> |s| >= 2)
  {
    var n := if s[0] == '\\' then 2 else 1;
    if |s| > n && IsRepeat(s[n]) then (Item(n == 2, s[n - 1], CountOf(s[n])), s[n + 1..])
    else (Item(n == 2, s[n - 1], Once), s[n..])
  }

  lemma BehindAtom(u: string)
    requires Accepted(u, false, true)
    ensures u != "" && IsRepeat(u[0]) ==> Accepted(u[1..], false, false)
    ensures u == "" || !IsRepeat(u[0]) ==> Accepted(u, false, false)
  {
  }

  lemma FirstText(s: string)
    requires s != "" && (s[0] == '\\' ==> |s| >= 2)
    ensures var (it, rest) := FirstOf(s);
            |rest| < |s| && s == AtomText(it) + (CountText(it.count) + rest)
  {
    var n := if s[0] == '\\' then 2 else 1;
    var (it, rest) := FirstOf(s);
    assert s == AtomText(it) + s[n..];
    assert s[n..] == CountText(it.count) + rest;
  }

  lemma FirstAccepted(s: string)
    requires Accepted(s, false, false) && s != "" && s[0] != '$'
    ensures var (it, rest) := FirstOf(s); GoodItem(it) && Accepted(rest, false, false)
  {
    var n := if s[0] == '\\' then 2 else 1;
    var u := s[n..];
    assert Accepted(u, false, true);
    BehindAtom(u);
    if |s| > n && IsRepeat(s[n]) {
      assert u[1..] == s[n + 1..];
    }
  }

  /** The items of an accepted text that does not start with a repetition. */
  function ParseItems(s: string): (r: (seq<Item>, bool))
    requires Accepted(s, false, false)
    ensures GoodItems(r.0) && ItemsText(r.0, r.1) == s
    decreases |s|
  {
    if s == "" then ([], false)
    else if s[0] == '$' then
      assert s == "$";
      ([], true)
    else
      FirstAccepted(s);
      FirstText(s);
      var (it, rest) := FirstOf(s);
      var r := ParseItems(rest);
      assert ([it] + r.0)[1..] == r.0;
      ([it] + r.0, r.1)
  }

  function Parse(regex: string): (p: Pattern)
    requires Valid(regex)
    ensures GoodItems(p.items) && PatternText(p) == regex
  {
    if regex != "" && regex[0] == '^' then
      var r := ParseItems(regex[1..]);
      Pattern(true, r.0, r.1)
    else
      NotFirst(regex);
      var r := ParseItems(regex);
      Pattern(false, r.0, r.1)
  }

  lemma NotFirst(s: string)
    requires Accepted(s, true, false) && (s == "" || s[0] != '^')
    ensures Accepted(s, false, false)
  {
  }

  lemma {:induction false} ItemsAccepted(items: seq<Item>, atEnd: bool)
    requires GoodItems(items)
    ensures Accepted(ItemsText(items, atEnd), false, false) && Accepted(ItemsText(items, atEnd), false, true)
    ensures Accepted(ItemsText(items, atEnd), true, false)
  {
    if items != [] {
      ItemsAccepted(items[1..], atEnd);
      var it := items[0];
      var rest := ItemsText(items[1..], atEnd);
      var tail := CountText(it.count) + rest;
      assert GoodItem(it);
      assert Accepted(tail, false, true) by {
        if it.count == Once {
          assert tail == rest;
        } else {
          assert tail[1..] == rest;
        }
      }
      var s := ItemsText(items, atEnd);
      assert s[|AtomText(it)|..] == tail;
    } else if atEnd {
      assert "$"[1..] == "";
    }
  }

  /** The validator accepts exactly the texts of well-formed patterns. */
  lemma ValidIff(regex: string)
    ensures Valid(regex) <==> exists p: Pattern :: GoodItems(p.items) && PatternText(p) == regex
  {
    if Valid(regex) {
      var p := Parse(regex);
    }
    if exists p: Pattern :: GoodItems(p.items) && PatternText(p) == regex {
      var p: Pattern :| GoodItems(p.items) && PatternText(p) == regex;
      ItemsAccepted(p.items, p.atEnd);
      var t := ItemsText(p.items, p.atEnd);
      if p.atStart {
        assert regex[1..] == t;
      } else {
        assert "" + t == t;
      }
    }
  }

  // ---- The matcher ----

  lemma MatchesHeadNone(atEnd: bool, s: string)
    ensures MatchesHead([], atEnd, s) <==> !atEnd || s == ""
  {
    if !atEnd || s == "" {
      assert InItems([], s[..0]);
    }
  }

  /** Splitting off the first item: as many characters as it may take, and a match of the others behind them. */
  lemma MatchesHeadCons(it: Item, items: seq<Item>, atEnd: bool, s: string)
    ensures MatchesHead([it] + items, atEnd, s)
            <==> exists i :: 0 <= i <= |s| && InItem(it, s[..i]) && MatchesHead(items, atEnd, s[i..])
  {
    var all := [it] + items;
    assert all[1..] == items;
    if MatchesHead(all, atEnd, s) {
      var k :| 0 <= k <= |s| && InItems(all, s[..k]) && (atEnd ==> k == |s|);
      var i :| 0 <= i <= k && InItem(it, s[..k][..i]) && InItems(items, s[..k][i..]);
      assert s[..k][..i] == s[..i] && s[..k][i..] == s[i..][..k - i];
      assert MatchesHead(items, atEnd, s[i..]);
    }
    if exists i :: 0 <= i <= |s| && InItem(it, s[..i]) && MatchesHead(items, atEnd, s[i..]) {
      var i :| 0 <= i <= |s| && InItem(it, s[..i]) && MatchesHead(items, atEnd, s[i..]);
      var j :| 0 <= j <= |s[i..]| && InItems(items, s[i..][..j]) && (atEnd ==> j == |s[i..]|);
      assert s[..i + j][..i] == s[..i] && s[..i + j][i..] == s[i..][..j];
      assert InItems(all, s[..i + j]);
    }
  }

  const SIZE_MAX := 0xFFFF_FFFF_FFFF_FFFF

  /** No split in front of the i-th character gives a match. */
  ghost predicate NoneBelow(it: Item, items: seq<Item>, atEnd: bool, s: string, i: int)
    requires i <= |s| + 1
  {
    forall j :: 0 <= j < i && InItem(it, s[..j]) ==> !MatchesHead(items, atEnd, s[j..])
  }

  /** A character that the class does not match ends the repetition, and so does the largest count. */
  lemma NoneBehind(it: Item, items: seq<Item>, atEnd: bool, s: string, i: nat)
    requires i <= |s| && NoneBelow(it, items, atEnd, s, i + 1)
    requires i == |s| || !AtomMatchesChar(it.escaped, it.c, s[i])
    ensures !MatchesHead([it] + items, atEnd, s)
  {
    MatchesHeadCons(it, items, atEnd, s);
    forall j | i < j <= |s|
      ensures !InItem(it, s[..j])
    {
      assert s[..j][i] == s[i];
    }
  }

  lemma NoneLonger(it: Item, items: seq<Item>, atEnd: bool, s: string, i: nat)
    requires i <= |s| && NoneBelow(it, items, atEnd, s, i)
    requires forall k :: k >= i ==> !LengthAllowed(it.count, k)
    ensures !MatchesHead([it] + items, atEnd, s)
  {
    MatchesHeadCons(it, items, atEnd, s);
    forall j | i <= j <= |s|
      ensures !InItem(it, s[..j])
    {
      assert |s[..j]| == j;
    }
  }

  lemma SomeSplit(it: Item, items: seq<Item>, atEnd: bool, s: string, i: nat)
    requires i <= |s| && InItem(it, s[..i]) && MatchesHead(items, atEnd, s[i..])
    ensures MatchesHead([it] + items, atEnd, s)
  {
    MatchesHeadCons(it, items, atEnd, s);
  }

  lemma OneMoreMatches(it: Item, s: string, i: nat)
    requires i < |s| && AllMatch(it, s[..i]) && AtomMatchesChar(it.escaped, it.c, s[i])
    ensures AllMatch(it, s[..i + 1])
  {
    assert s[..i + 1] == s[..i] + [s[i]];
  }

  /** A repeated class followed by the rest of the pattern. */
  method MatchRepetitionAndRegexAtHead(escaped: bool, c: char, repeat: char, regex: string, str: string,
                                       ghost items: seq<Item>, ghost atEnd: bool)
    returns (b: bool)
    requires IsRepeat(repeat) && |str| < SIZE_MAX
    requires GoodItems(items) && regex == ItemsText(items, atEnd)
    ensures b <==> MatchesHead([Item(escaped, c, CountOf(repeat))] + items, atEnd, str)
    decreases |regex|, |str| + 1
  {
    ghost var it := Item(escaped, c, CountOf(repeat));
    var minCount := if repeat == '+' then 1 else 0;
    var maxCount := if repeat == '?' then 1 else SIZE_MAX - 1;
    var i := 0;
    while i <= maxCount
      invariant 0 <= i <= maxCount + 1 && i <= |str|
      invariant AllMatch(it, str[..i])
      invariant NoneBelow(it, items, atEnd, str, i)
    {
      if i >= minCount {
        var rest := MatchRegexAtHead(regex, str[i..], items, atEnd);
        if rest {
          SomeSplit(it, items, atEnd, str, i);
          return true;
        }
      }
      if i == |str| || !AtomMatchesChar(escaped, c, str[i]) {
        NoneBehind(it, items, atEnd, str, i);
        return false;
      }
      OneMoreMatches(it, str, i);
      i := i + 1;
    }
    NoneLonger(it, items, atEnd, str, i);
    return false;
  }

  lemma FirstItem(items: seq<Item>, atEnd: bool)
    requires GoodItems(items) && items != []
    ensures var s := ItemsText(items, atEnd);
            var it := items[0];
            var n := |AtomText(it)|;
            && s != "" && (s[0] == '\\' <==> it.escaped) && s[0] != '$'
            && n == (if it.escaped then 2 else 1) && |s| >= n && s[n - 1] == it.c
            && s[n..] == CountText(it.count) + ItemsText(items[1..], atEnd)
            && (|s| > n && IsRepeat(s[n]) <==> it.count != Once)
            && (it.count != Once ==>
                  CountOf(s[n]) == it.count && s[n + 1..] == ItemsText(items[1..], atEnd))
  {
    var s := ItemsText(items, atEnd);
    var it := items[0];
    var rest := ItemsText(items[1..], atEnd);
    assert GoodItem(it);
    var tail := CountText(it.count) + rest;
    assert s[|AtomText(it)|..] == tail;
    if it.count == Once {
      assert tail == rest;
      if items[1..] != [] {
        assert GoodItem(items[1]);
      }
    } else {
      assert tail[1..] == rest;
    }
  }

  /** Decides whether the pattern matches a prefix of the text. */
  method MatchRegexAtHead(regex: string, str: string, ghost items: seq<Item>, ghost atEnd: bool)
    returns (b: bool)
    requires |str| < SIZE_MAX
    requires GoodItems(items) && regex == ItemsText(items, atEnd)
    ensures b <==> MatchesHead(items, atEnd, str)
    decreases |regex|, |str|
  {
    if items == [] {
      MatchesHeadNone(atEnd, str);
    } else {
      FirstItem(items, atEnd);
      assert items == [items[0]] + items[1..];
    }
    if regex == "" {
      return true;
    }
    if regex[0] == '$' {
      return str == "";
    }
    var escaped := regex[0] == '\\';
    var r := if escaped then regex[1..] else regex;
    if |r| > 1 && IsRepeat(r[1]) {
      b := MatchRepetitionAndRegexAtHead(escaped, r[0], r[1], r[2..], str, items[1..], atEnd);
    } else {
      MatchesHeadCons(items[0], items[1..], atEnd, str);
      if str == "" || !AtomMatchesChar(escaped, r[0], str[0]) {
        assert forall i :: 0 < i <= |str| ==> str[..i][0] == str[0];
        return false;
      }
      b := MatchRegexAtHead(r[1..], str[1..], items[1..], atEnd);
      assert InItem(items[0], str[..1]);
    }
  }

  /** Sound and complete: true exactly if some substring is in the language of the pattern. */
  method MatchRegexAnywhere(regex: Option<string>, str: Option<string>) returns (b: bool)
    requires regex.Some? ==> Valid(regex.value)
    requires str.Some? ==> |str.value| < SIZE_MAX
    ensures b <==> regex.Some? && str.Some? && Matches(Parse(regex.value), str.value)
  {
    if regex.None? || str.None? {
      return false;
    }
    var re, s := regex.value, str.value;
    ghost var p := Parse(re);
    assert s[0..] == s;
    if re != "" && re[0] == '^' {
      assert p.atStart && re[1..] == ItemsText(p.items, p.atEnd);
      b := MatchRegexAtHead(re[1..], s, p.items, p.atEnd);
      return;
    }
    assert re == ItemsText(p.items, p.atEnd);
    var i := 0;
    while i <= |s|
      invariant 0 <= i <= |s| + 1
      invariant forall j :: 0 <= j < i ==> !MatchesHead(p.items, p.atEnd, s[j..])
    {
      b := MatchRegexAtHead(re, s[i..], p.items, p.atEnd);
      if b {
        return true;
      }
      i := i + 1;
    }
    return false;
  }

  // ---- Full matches ----

  /** The pattern that RE::Init prepares for a full match. */
  function FullPattern(regex: string): string {
    (if regex == "" || regex[0] != '^' then "^" else "")
    + (regex + if regex == "" || regex[|regex| - 1] != '$' then "$" else "")
  }

  /** The last thing the pattern asks for is a dollar character, written \$. */
  predicate EndsInEscapedDollar(p: Pattern) {
    !p.atEnd && p.items != [] && p.items[|p.items| - 1] == Item(true, '$', Once)
  }

  lemma {:induction false} AnchorText(items: seq<Item>)
    ensures ItemsText(items, true) == ItemsText(items, false) + "$"
  {
    if items == [] {
    } else {
      AnchorText(items[1..]);
      var a, c := AtomText(items[0]), CountText(items[0].count);
      var rest := ItemsText(items[1..], false);
      Associative(c, rest, "$");
      Associative(a, c + rest, "$");
    }
  }

  predicate EndsInDollar(s: string) {
    s != "" && s[|s| - 1] == '$'
  }

  lemma EndsInTail(a: string, b: string)
    ensures EndsInDollar(a + b) <==> if b == "" then EndsInDollar(a) else EndsInDollar(b)
  {
    if b == "" {
      assert a + b == a;
    }
  }

  lemma {:induction false} TextEnds(items: seq<Item>)
    requires GoodItems(items)
    ensures EndsInDollar(ItemsText(items, false)) <==> items != [] && items[|items| - 1] == Item(true, '$', Once)
    ensures ItemsText(items, false) == "" <==> items == []
  {
    if items == [] {
    } else {
      var it, rest := items[0], ItemsText(items[1..], false);
      TextEnds(items[1..]);
      assert GoodItem(it);
      EndsInTail(AtomText(it), CountText(it.count) + rest);
      EndsInTail(CountText(it.count), rest);
    }
  }

  lemma FullFromText(p: Pattern, t: string)
    requires GoodItems(p.items) && t == ItemsText(p.items, p.atEnd)
    ensures FullPattern(PatternText(p)) == "^" + (t + if EndsInDollar(t) then "" else "$")
  {
    var s := PatternText(p);
    if p.atStart {
      EndsInTail("^", t);
      assert s == "^" + t;
    } else {
      assert s == t;
      StartsPlain(p.items, p.atEnd);
    }
  }

  lemma StartsPlain(items: seq<Item>, atEnd: bool)
    requires GoodItems(items)
    ensures var t := ItemsText(items, atEnd); t == "" || t[0] != '^'
  {
    if items != [] {
      assert GoodItem(items[0]);
    }
  }

  /** The prepared pattern is anchored on both sides exactly when the pattern does not end in \$. */
  lemma FullPatternIff(p: Pattern)
    requires GoodItems(p.items)
    ensures FullPattern(PatternText(p)) == PatternText(Pattern(true, p.items, !EndsInEscapedDollar(p)))
  {
    FullFromText(p, ItemsText(p.items, p.atEnd));
    AnchorAdded(p.items, p.atEnd);
  }

  /** A dollar sign is added unless the text ends in one. */
  lemma AnchorAdded(items: seq<Item>, atEnd: bool)
    requires GoodItems(items)
    ensures var t := ItemsText(items, atEnd);
            t + (if EndsInDollar(t) then "" else "$")
            == ItemsText(items, !EndsInEscapedDollar(Pattern(false, items, atEnd)))
  {
    var t := ItemsText(items, atEnd);
    TextEnds(items);
    AnchorText(items);
    EndsInTail(ItemsText(items, false), "$");
    assert t + "" == t;
  }

  /** Anchored on both sides, a pattern matches just the texts in its language. */
  lemma AnchoredMatch(items: seq<Item>, s: string)
    ensures Matches(Pattern(true, items, true), s) <==> InItems(items, s)
  {
    assert s[0..] == s && s[..|s|] == s;
    if InItems(items, s) {
      assert MatchesHead(items, true, s[0..]);
    }
  }

  // ---- Parsing is unique ----

  lemma {:induction false} ItemsInvert(items: seq<Item>, atEnd: bool)
    requires GoodItems(items)
    ensures Accepted(ItemsText(items, atEnd), false, false)
    ensures ParseItems(ItemsText(items, atEnd)) == (items, atEnd)
  {
    ItemsAccepted(items, atEnd);
    if items == [] {
    } else {
      FirstItem(items, atEnd);
      FirstItself(items, atEnd);
      ItemsInvert(items[1..], atEnd);
      assert [items[0]] + items[1..] == items;
    }
  }

  lemma FirstItself(items: seq<Item>, atEnd: bool)
    requires GoodItems(items) && items != []
    ensures var s := ItemsText(items, atEnd);
            s != "" && (s[0] == '\\' ==> |s| >= 2) && FirstOf(s) == (items[0], ItemsText(items[1..], atEnd))
  {
    FirstItem(items, atEnd);
    var it := items[0];
    if it.count == Once {
      assert CountText(it.count) + ItemsText(items[1..], atEnd) == ItemsText(items[1..], atEnd);
    }
  }

  /** The text of a well-formed pattern is parsed into that pattern and no other. */
  lemma ParseInverts(p: Pattern)
    requires GoodItems(p.items)
    ensures Valid(PatternText(p)) && Parse(PatternText(p)) == p
  {
    var s, t := PatternText(p), ItemsText(p.items, p.atEnd);
    ValidIff(s);
    ItemsInvert(p.items, p.atEnd);
    if p.atStart {
      assert s[1..] == t;
    } else {
      assert s == t;
      StartsPlain(p.items, p.atEnd);
    }
  }

  // ---- Words of a pattern ----

  /** A character of the class of an item. */
  function Sample(it: Item): char {
    if !it.escaped then it.c
    else
      match it.c
      case 'd' => '0'
      case 'D' => 'a'
      case 'f' => '\U{000C}'
      case 'n' => '\n'
      case 'r' => '\r'
      case 's' => ' '
      case 'S' => 'a'
      case 't' => '\t'
      case 'v' => '\U{000B}'
      case 'w' => 'a'
      case 'W' => ' '
      case c => c
  }

  function Word(items: seq<Item>): string {
    if items == [] then "" else [Sample(items[0])] + Word(items[1..])
  }

  /** Every well-formed list of items has a word. */
  lemma {:induction false} WordIn(items: seq<Item>)
    requires GoodItems(items)
    ensures InItems(items, Word(items))
  {
    if items == [] {
    } else {
      assert GoodItem(items[0]);
      WordIn(items[1..]);
      var w := Word(items);
      assert w[..1] == [Sample(items[0])] && w[1..] == Word(items[1..]);
      assert InItem(items[0], w[..1]);
    }
  }

  /** Behind an escaped dollar sign a word can only end in one. */
  lemma {:induction false} WordEnds(items: seq<Item>, w: string)
    requires items != [] && items[|items| - 1] == Item(true, '$', Once) && InItems(items, w)
    ensures EndsInDollar(w)
    decreases |items|
  {
    var k :| 0 <= k <= |w| && InItem(items[0], w[..k]) && InItems(items[1..], w[k..]);
    SplitJoin(w, k);
    if |items| == 1 {
      assert w[k..] == "" && w[..k] == w;
      assert w[..k][0] == '$';
    } else {
      WordEnds(items[1..], w[k..]);
      EndsInTail(w[..k], w[k..]);
    }
  }

  /**
   A full match accepts exactly the words of the pattern, whatever the text, if and only if the
   pattern does not end in an escaped dollar sign.
   */
  lemma FullMatchIff(p: Pattern)
    requires GoodItems(p.items)
    ensures Valid(FullPattern(PatternText(p)))
    ensures (forall s :: Matches(Parse(FullPattern(PatternText(p))), s) <==> InItems(p.items, s))
            <==> !EndsInEscapedDollar(p)
  {
    var full := Pattern(true, p.items, !EndsInEscapedDollar(p));
    FullPatternIff(p);
    ParseInverts(full);
    if EndsInEscapedDollar(p) {
      FullMatchTooMuch(p);
    } else {
      forall s: string
        ensures Matches(full, s) <==> InItems(p.items, s)
      {
        AnchoredMatch(p.items, s);
      }
    }
  }

  /** With one at the end, a word of the pattern with anything behind it is accepted as well. */
  lemma FullMatchTooMuch(p: Pattern)
    requires GoodItems(p.items) && EndsInEscapedDollar(p)
    ensures var s := Word(p.items) + "x"; Matches(Pattern(true, p.items, false), s) && !InItems(p.items, s)
  {
    var w := Word(p.items);
    var s := w + "x";
    WordIn(p.items);
    assert s[0..] == s && s[..|w|] == w;
    assert MatchesHead(p.items, false, s[0..]);
    if InItems(p.items, s) {
      WordEnds(p.items, s);
    }
  }

  /** The full form of \$ matches "$x", which is no word of \$. */
  lemma FullMatchOfPrefix()
    ensures FullPattern("\\$") == "^\\$" && Valid("^\\$")
    ensures Matches(Parse("^\\$"), "$x") && !InItems([Item(true, '$', Once)], "$x")
  {
    var items := [Item(true, '$', Once)];
    EscapedDollar();
    FullPatternIff(Pattern(false, items, false));
    ParseInverts(Pattern(true, items, false));
    FullMatchTooMuch(Pattern(false, items, false));
  }

  lemma EscapedDollar()
    ensures var items := [Item(true, '$', Once)];
            && GoodItems(items) && Word(items) + "x" == "$x"
            && PatternText(Pattern(false, items, false)) == "\\$" && EndsInEscapedDollar(Pattern(false, items, false))
            && PatternText(Pattern(true, items, false)) == "^\\$"
  {
    var items := [Item(true, '$', Once)];
    assert items[1..] == [] && ItemsText(items, false) == "\\$";
    assert Word(items) == "$" && "$" + "x" == "$x";
  }
}
