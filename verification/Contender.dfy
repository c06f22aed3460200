// The contender component: parsing extra flags, printing them back, and
// assembling the command line around the defaults they do not override.
module Contender {
  import opened Text
  import opened Template
  import opened ServiceSpec

  // ----- white space -----

  // unicode.IsSpace
  predicate IsSpace(c: char) {
    var n := c as int;
    9 <= n <= 13 || n == 0x20 || n == 0x85 || n == 0xA0 || n == 0x1680 || 0x2000 <= n <= 0x200a ||
    n == 0x2028 || n == 0x2029 || n == 0x202f || n == 0x205f || n == 0x3000
  }

  predicate Blank(s: string) { forall i :: 0 <= i < |s| ==> IsSpace(s[i]) }

  predicate Trimmed(s: string) { s == "" || (!IsSpace(s[0]) && !IsSpace(s[|s| - 1])) }

  function TrimLeft(s: string): (r: string)
    ensures r == "" || !IsSpace(r[0])
    ensures |r| <= |s| && r == s[|s| - |r|..] && Blank(s[..|s| - |r|])
  {
    if s != "" && IsSpace(s[0]) then
      var r := TrimLeft(s[1..]);
      assert s[..|s| - |r|] == [s[0]] + s[1..][..|s| - 1 - |r|];
      r
    else s
  }

  function TrimRight(s: string): (r: string)
    ensures r == "" || !IsSpace(r[|r| - 1])
    ensures |r| <= |s| && r == s[..|r|] && Blank(s[|r|..])
  {
    if s != "" && IsSpace(s[|s| - 1]) then
      var r := TrimRight(s[..|s| - 1]);
      assert s[|r|..] == s[..|s| - 1][|r|..] + [s[|s| - 1]];
      r
    else s
  }

  // strings.TrimSpace
  function TrimSpace(s: string): (r: string)
    ensures Trimmed(r)
    ensures Trimmed(s) ==> r == s
  {
    BothEndsTrimmed(s);
    TrimRight(TrimLeft(s))
  }

  lemma BothEndsTrimmed(s: string)
    ensures Trimmed(TrimRight(TrimLeft(s)))
    ensures Trimmed(s) ==> TrimRight(TrimLeft(s)) == s
  {
    hide IsSpace, Blank;
    if Trimmed(s) { TrimmedStays(s); }
    var t := TrimLeft(s);
    var r := TrimRight(t);
    assert r != "" ==> r[0] == t[0];
  }

  lemma TrimmedStays(s: string)
    requires Trimmed(s)
    ensures TrimLeft(s) == s && TrimRight(s) == s
  {
    hide IsSpace, Blank;
  }

  lemma {:induction false} RightKeepsFront(s: string)
    requires s != "" && !IsSpace(s[0])
    ensures TrimRight(s) != "" && TrimRight(s)[0] == s[0]
  {
    if IsSpace(s[|s| - 1]) {
      RightKeepsFront(s[..|s| - 1]);
    }
  }

  lemma {:induction false} LeftKeepsBack(s: string)
    requires s != "" && !IsSpace(s[|s| - 1])
    ensures TrimLeft(s) != "" && TrimLeft(s)[|TrimLeft(s)| - 1] == s[|s| - 1]
  {
    if IsSpace(s[0]) {
      LeftKeepsBack(s[1..]);
    }
  }

  // m with white space around it.
  ghost predicate Surrounded(s: string, m: string) {
    exists a, b :: Padded(s, a, m, b)
  }

  predicate Padded(s: string, a: string, m: string, b: string) { Blank(a) && Blank(b) && s == a + m + b }

  lemma BlankEnds(s: string)
    requires Blank(s) && s != ""
    ensures IsSpace(s[0]) && Blank(s[1..]) && IsSpace(s[|s| - 1]) && Blank(s[..|s| - 1])
  {
    hide IsSpace;
  }

  lemma {:induction false} LeftDrops(a: string, t: string)
    requires Blank(a)
    ensures TrimLeft(a + t) == TrimLeft(t)
  {
    hide IsSpace, Blank;
    if a == "" {
      assert a + t == t;
    } else {
      BlankEnds(a);
      LeftDrops(a[1..], t);
      assert (a + t)[1..] == a[1..] + t && (a + t)[0] == a[0];
    }
  }

  lemma {:induction false} RightDrops(t: string, b: string)
    requires Blank(b)
    ensures TrimRight(t + b) == TrimRight(t)
  {
    hide IsSpace, Blank;
    if b == "" {
      assert t + b == t;
    } else {
      BlankEnds(b);
      var n := |b| - 1;
      RightDrops(t, b[..n]);
      assert (t + b)[..|t + b| - 1] == t + b[..n] && (t + b)[|t + b| - 1] == b[n];
    }
  }

  // Trimming removes exactly the white space around the text.
  lemma TrimExact(s: string, m: string)
    ensures TrimSpace(s) == m <==> Trimmed(m) && Surrounded(s, m)
  {
    hide TrimSpace, Trimmed, Blank;
    TrimSurrounded(s);
    if Trimmed(m) && Surrounded(s, m) {
      var a, b :| Padded(s, a, m, b);
      assert Blank(a) && Blank(b);
      TrimPadded(a, m, b);
    }
  }

  lemma TrimSurrounded(s: string)
    ensures Trimmed(TrimSpace(s)) && Surrounded(s, TrimSpace(s))
  {
    hide IsSpace, Blank, TrimLeft, TrimRight, Trimmed;
    var t := TrimLeft(s);
    var r := TrimRight(t);
    var a, b := s[..|s| - |t|], t[|r|..];
    assert t == r + b && s == a + t;
    Associate(a, r, b);
    assert Padded(s, a, r, b);
  }

  lemma TrimPadded(a: string, m: string, b: string)
    requires Blank(a) && Blank(b) && Trimmed(m)
    ensures TrimSpace(a + m + b) == m
  {
    hide IsSpace, Blank, TrimLeft, TrimRight;
    assert a + m + b == a + (m + b);
    LeftDrops(a, m + b);
    if m == "" {
      assert m + b == b && b + "" == b;
      LeftDrops(b, "");
      TrimNothing();
    } else {
      TrimNoFront(m + b);
      RightDrops(m, b);
      TrimNoBack(m);
    }
  }

  lemma TrimNothing()
    ensures TrimLeft("") == "" && TrimRight("") == ""
  {
  }

  lemma TrimNoFront(s: string)
    requires s != "" && !IsSpace(s[0])
    ensures TrimLeft(s) == s
  {
  }

  lemma TrimNoBack(s: string)
    requires s != "" && !IsSpace(s[|s| - 1])
    ensures TrimRight(s) == s
  {
  }

  // ----- parsing -----

  datatype Extra = Extra(name: string, val: string, hasVal: bool, usedEq: bool)

  // The first blank or tab, or None.
  function IndexWS(s: string): (r: Option<nat>)
    ensures r.None? ==> ' ' !in s && '\t' !in s
    ensures r.Some? ==>
              r.value < |s| && (s[r.value] == ' ' || s[r.value] == '\t') &&
              ' ' !in s[..r.value] && '\t' !in s[..r.value]
  {
    if s == "" then None
    else if s[0] == ' ' || s[0] == '\t' then Some(0)
    else
      match IndexWS(s[1..])
      case None => None
      case Some(i) => assert s[..i + 1] == [s[0]] + s[1..][..i]; Some(i + 1)
  }

  // parseKV after trimming.
  function ParseTrimmed(s: string): Extra {
    if s == "" then Extra("", "", false, false)
    else
      var eq, ws := IndexOf(s, '='), IndexWS(s);
      if eq.Some? && eq.value > 0 && (ws.None? || eq.value < ws.value) then
        Extra(TrimSpace(s[..eq.value]), TrimSpace(s[eq.value + 1..]), true, true)
      else if ws.None? then Extra(s, "", false, false)
      else Extra(TrimSpace(s[..ws.value]), TrimSpace(s[ws.value + 1..]), true, false)
  }

  function ParseKV(s: string): Extra { ParseTrimmed(TrimSpace(s)) }

  // How an extra flag is put on the command line.
  function Render(e: Extra): seq<string> {
    if !e.hasVal then [e.name]
    else if e.usedEq then [e.name + "=" + e.val]
    else [e.name, e.val]
  }

  // The rendered arguments as one string, separated by a blank.
  function Joined(args: seq<string>): string
    requires |args| > 0
  {
    if |args| == 1 then args[0] else args[0] + " " + Joined(args[1..])
  }

  // ----- reading back what was printed -----

  predicate NoGap(s: string) { ' ' !in s && '\t' !in s }

  // What parsing guarantees about a non-blank argument.
  predicate WellParsed(e: Extra) {
    Trimmed(e.name) && Trimmed(e.val) && e.name != "" && NoGap(e.name) &&
    (e.usedEq ==> e.hasVal && '=' !in e.name) &&
    (!e.hasVal ==> e.val == "") &&
    (e.hasVal && !e.usedEq ==> e.val != "") &&
    (!e.usedEq ==> '=' !in e.name[1..] || e.name[0] == '=')
  }

  lemma TrimPrefix(s: string, n: nat)
    requires Trimmed(s) && 0 < n <= |s|
    ensures TrimSpace(s[..n]) == TrimRight(s[..n]) != ""
    ensures TrimSpace(s[..n])[0] == s[0]
  {
    hide IsSpace, Blank;
    RightKeepsFront(s[..n]);
  }

  lemma TrimSuffix(s: string, n: nat)
    requires Trimmed(s) && n < |s|
    ensures n + 1 < |s| ==> TrimSpace(s[n + 1..]) == TrimLeft(s[n + 1..]) != ""
  {
    hide IsSpace, Blank;
    if n + 1 < |s| {
      var t := s[n + 1..];
      LeftKeepsBack(t);
      var l := TrimLeft(t);
      assert TrimRight(l) == l;
    }
  }

  lemma Members(s: string, n: nat)
    requires n <= |s|
    ensures forall i :: 0 <= i < n ==> s[i] in s[..n]
    ensures forall i :: n <= i < |s| ==> s[i] in s[n..]
  {
    assert forall i :: 0 <= i < n ==> s[..n][i] == s[i];
    assert forall i :: n <= i < |s| ==> s[n..][i - n] == s[i];
  }

  lemma PrefixFree(s: string, t: string, c: char)
    requires t <= s && c !in s
    ensures c !in t
  {
    assert t == s[..|t|];
  }

  // The part of s before the first '=' or gap, without the blanks at its end.
  lemma PrefixName(s: string, n: nat)
    requires Trimmed(s) && 0 < n <= |s| && NoGap(s[..n])
    ensures TrimSpace(s[..n]) != "" && TrimSpace(s[..n]) <= s[..n] && NoGap(TrimSpace(s[..n]))
    ensures '=' !in s[..n] ==> '=' !in TrimSpace(s[..n])
  {
    hide IsSpace, Blank;
    TrimPrefix(s, n);
    var name := TrimSpace(s[..n]);
    PrefixFree(s[..n], name, ' ');
    PrefixFree(s[..n], name, '\t');
    if '=' !in s[..n] { PrefixFree(s[..n], name, '='); }
  }

  lemma ShorterNoGap(s: string, m: nat, n: nat)
    requires m <= n <= |s| && NoGap(s[..n])
    ensures NoGap(s[..m])
  {
    assert s[..m] == s[..n][..m];
    PrefixFree(s[..n], s[..m], ' ');
    PrefixFree(s[..n], s[..m], '\t');
  }

  lemma ParsedWell(s: string)
    requires Trimmed(s) && s != ""
    ensures WellParsed(ParseTrimmed(s))
  {
    hide WellParsed, TrimSpace, IsSpace;
    var eq, ws := IndexOf(s, '='), IndexWS(s);
    if eq.Some? && eq.value > 0 && (ws.None? || eq.value < ws.value) {
      ParsedEquals(s, eq.value);
    } else if ws.Some? {
      ParsedGap(s, ws.value);
    } else {
      ParsedBare(s);
    }
  }

  lemma ParsedEquals(s: string, n: nat)
    requires Trimmed(s) && IndexOf(s, '=') == Some(n) && n > 0
    requires IndexWS(s).None? || n < IndexWS(s).value
    ensures WellParsed(Extra(TrimSpace(s[..n]), TrimSpace(s[n + 1..]), true, true))
  {
    hide IsSpace, Blank, TrimSpace;
    assert s[..|s|] == s;
    ShorterNoGap(s, n, if IndexWS(s).Some? then IndexWS(s).value else |s|);
    PrefixName(s, n);
  }

  lemma ParsedGap(s: string, n: nat)
    requires Trimmed(s) && IndexWS(s) == Some(n)
    requires var eq := IndexOf(s, '='); eq.None? || eq.value == 0 || eq.value >= n
    ensures WellParsed(Extra(TrimSpace(s[..n]), TrimSpace(s[n + 1..]), true, false))
  {
    hide Blank, TrimSpace;
    GapNotAtEnds(s, n);
    PrefixName(s, n);
    TrimSuffix(s, n);
    NameEquals(s, n, TrimSpace(s[..n]));
  }

  lemma ParsedBare(s: string)
    requires Trimmed(s) && s != "" && IndexWS(s).None?
    requires var eq := IndexOf(s, '='); eq.None? || eq.value == 0
    ensures WellParsed(Extra(s, "", false, false))
  {
    hide IsSpace;
    assert s[..|s|] == s;
    NameEquals(s, |s|, s);
  }

  lemma GapNotAtEnds(s: string, n: nat)
    requires Trimmed(s) && n < |s| && (s[n] == ' ' || s[n] == '\t')
    ensures 0 < n < |s| - 1
  {
  }

  // A name not ended by '=' contains one only at its front.
  lemma NameEquals(s: string, n: nat, name: string)
    requires 0 < n <= |s| && name != "" && name <= s[..n]
    requires var eq := IndexOf(s, '='); eq.None? || eq.value == 0 || eq.value >= n
    ensures '=' !in name[1..] || name[0] == '='
  {
    var eq := IndexOf(s, '=');
    if eq.None? || eq.value != 0 {
      var m := if eq.Some? then eq.value else |s|;
      assert s[..n] == s[..m][..n] && s[..|s|] == s;
      PrefixFree(s[..m], s[..n], '=');
      PrefixFree(s[..n], name, '=');
    } else {
      assert name[0] == s[0];
    }
  }

  lemma IndexFirst(s: string, n: nat, c: char)
    requires n < |s| && s[n] == c && c !in s[..n]
    ensures IndexOf(s, c) == Some(n)
  {
    Members(s, n);
    Members(s, IndexOf(s, c).value);
  }

  lemma IndexWSFirst(s: string, n: nat)
    requires n < |s| && (s[n] == ' ' || s[n] == '\t') && NoGap(s[..n])
    ensures IndexWS(s) == Some(n)
  {
    Members(s, n);
    Members(s, IndexWS(s).value);
  }

  // Parsing the printed form gives the parsed flag back.
  lemma ReparseRendered(e: Extra)
    requires WellParsed(e)
    ensures ParseKV(Joined(Render(e))) == e
  {
    hide ParseKV;
    if !e.hasVal {
      ReparseBare(e);
    } else if e.usedEq {
      ReparseEquals(e);
    } else {
      assert [e.name, e.val][1..] == [e.val];
      assert Joined([e.val]) == e.val;
      ReparseGap(e);
    }
  }

  lemma ReparseBare(e: Extra)
    requires WellParsed(e) && !e.hasVal
    ensures ParseKV(e.name) == e
  {
    hide IsSpace, Blank, TrimSpace;
    EqualsNotSplit(e.name, e.name);
    TrimmedFixed(e.name);
  }

  lemma TrimmedFixed(s: string)
    requires Trimmed(s)
    ensures TrimSpace(s) == s
  {
  }

  lemma ReparseEquals(e: Extra)
    requires WellParsed(e) && e.usedEq
    ensures ParseKV(e.name + "=" + e.val) == e
  {
    hide Blank, TrimSpace, IsSpace, IndexOf, IndexWS;
    var s, n := e.name + "=" + e.val, |e.name|;
    assert s[..n] == e.name && s[n + 1..] == e.val && s[n] == '=';
    EqualsTrimmed(e);
    TrimmedFixed(s);
    TrimmedFixed(e.name);
    TrimmedFixed(e.val);
    IndexFirst(s, n, '=');
    GapAfter(s, n);
  }

  lemma EqualsTrimmed(e: Extra)
    requires WellParsed(e) && e.usedEq
    ensures Trimmed(e.name + "=" + e.val)
  {
    var s := e.name + "=" + e.val;
    assert s[0] == e.name[0];
    if e.val == "" { assert s[|s| - 1] == '='; } else { assert s[|s| - 1] == e.val[|e.val| - 1]; }
  }

  // With no gap before position n, and none at it, a gap comes later.
  lemma GapAfter(s: string, n: nat)
    requires n < |s| && NoGap(s[..n]) && s[n] != ' ' && s[n] != '\t'
    ensures IndexWS(s).None? || n < IndexWS(s).value
  {
    hide IndexWS;
    Members(s, n);
  }

  lemma ReparseGap(e: Extra)
    requires WellParsed(e) && e.hasVal && !e.usedEq
    ensures ParseKV(e.name + " " + e.val) == e
  {
    hide IsSpace, Blank, TrimSpace;
    var s, n := e.name + " " + e.val, |e.name|;
    assert s[..n] == e.name && s[n + 1..] == e.val && s[n] == ' ';
    assert s[0] == e.name[0] && s[|s| - 1] == e.val[|e.val| - 1];
    TrimmedFixed(s);
    TrimmedFixed(e.name);
    TrimmedFixed(e.val);
    IndexWSFirst(s, n);
    EqualsNotSplit(s, e.name);
  }

  // In such a text no '=' after the front comes before the end of the name.
  lemma EqualsNotSplit(s: string, name: string)
    requires name != "" && name <= s
    requires '=' !in name[1..] || name[0] == '='
    ensures var eq := IndexOf(s, '='); eq.None? || eq.value == 0 || eq.value >= |name|
  {
    var eq := IndexOf(s, '=');
    Members(name, 1);
    if eq.Some? { Members(s, eq.value); }
  }

  lemma ContenderRoundTrip(s: string)
    ensures ParseKV(Joined(Render(ParseKV(s)))) == ParseKV(s)
  {
    if TrimSpace(s) != "" {
      ParsedWell(TrimSpace(s));
      ReparseRendered(ParseKV(s));
    }
  }

  // text is the name, a separator with blanks around it, and the value.
  predicate Splits(text: string, name: string, a: string, sep: char, b: string, val: string) {
    Blank(a) && Blank(b) && text == (name + a) + [sep] + (b + val)
  }

  lemma ParseMeaning(s: string)
    requires TrimSpace(s) != ""
    ensures var e := ParseKV(s);
            if !e.hasVal then TrimSpace(s) == e.name
            else exists a, sep, b :: Splits(TrimSpace(s), e.name, a, sep, b, e.val) &&
                                     (if e.usedEq then sep == '=' else sep == ' ' || sep == '\t')
  {
    hide IsSpace, TrimSpace, Splits;
    var t := TrimSpace(s);
    var e := ParseKV(s);
    if e.hasVal {
      var n := if e.usedEq then IndexOf(t, '=').value else IndexWS(t).value;
      if !e.usedEq { GapNotAtEnds(t, n); }
      var a, b := SplitMeaning(t, n);
      assert Splits(t, e.name, a, t[n], b, e.val);
    }
  }

  lemma RightSplit(p: string)
    ensures var r := TrimRight(p); p == r + p[|r|..] && Blank(p[|r|..])
  {
    hide IsSpace, Blank;
  }

  lemma LeftSplit(q: string)
    ensures var r := TrimLeft(q); q == q[..|q| - |r|] + r && Blank(q[..|q| - |r|])
  {
    hide IsSpace, Blank;
  }

  lemma SplitMeaning(t: string, n: nat) returns (a: string, b: string)
    requires Trimmed(t) && 0 < n < |t|
    ensures Splits(t, TrimSpace(t[..n]), a, t[n], b, TrimSpace(t[n + 1..]))
  {
    hide IsSpace, Blank, Trimmed, TrimLeft, TrimRight, TrimSpace;
    var p, q := t[..n], t[n + 1..];
    TrimPrefix(t, n);
    RightSplit(p);
    a := p[|TrimRight(p)|..];
    LeftSplit(q);
    b := q[..|q| - |TrimLeft(q)|];
    SuffixValue(t, n);
    assert t == p + [t[n]] + q;
  }

  lemma SuffixValue(t: string, n: nat)
    requires Trimmed(t) && n < |t|
    ensures TrimSpace(t[n + 1..]) == TrimLeft(t[n + 1..])
  {
    hide IsSpace, Blank;
    TrimSuffix(t, n);
  }

  // ----- the command line -----

  // The flags that stand for the same setting.
  function AliasGroup(flag: string): set<string> {
    if flag == "-l" then {"-l", "--loops"}
    else if flag == "-r" then {"-r", "--rpc-url"}
    else if flag in {"--tpb", "--tps", "--txs-per-second", "--txs-per-block"} then
      {"--tpb", "--tps", "--txs-per-second", "--txs-per-block"}
    else {flag}
  }

  datatype Opt = Opt(name: string, val: string, hasVal: bool)

  function Connect(service: string, port: string): string { ConnectRaw(service, port, "http", "") }

  function Defaults(targetChain: string): seq<Opt> {
    [Opt("-l", "", false), Opt("--min-balance", "10 ether", true),
     Opt("-r", Connect(if targetChain == "" then "el" else targetChain, "http"), true), Opt("--tps", "20", true)]
  }

  // The names of the non-blank extra arguments.
  function Named(extraArgs: seq<string>): set<string> {
    set i | 0 <= i < |extraArgs| && ParseKV(extraArgs[i]).name != "" :: ParseKV(extraArgs[i]).name
  }

  // The defaults none of whose aliases was named.
  function KeptDefaults(defaults: seq<Opt>, named: set<string>): seq<string> {
    if defaults == [] then []
    else
      var d := defaults[|defaults| - 1];
      KeptDefaults(defaults[..|defaults| - 1], named) +
      if AliasGroup(d.name) !! named then (if d.hasVal then [d.name, d.val] else [d.name]) else []
  }

  // All non-blank extra arguments, in order.
  function RenderedExtras(extraArgs: seq<string>): seq<string> {
    if extraArgs == [] then []
    else
      var e := ParseKV(extraArgs[|extraArgs| - 1]);
      RenderedExtras(extraArgs[..|extraArgs| - 1]) + if e.name == "" then [] else Render(e)
  }

  // Each default is dropped exactly if the user named one of the flags listed with it.
  lemma DefaultsExactly(targetChain: string, named: set<string>)
    ensures KeptDefaults(Defaults(targetChain), named) ==
              (if "-l" in named || "--loops" in named then [] else ["-l"]) +
              (if "--min-balance" in named then [] else ["--min-balance", "10 ether"]) +
              (if "-r" in named || "--rpc-url" in named then []
               else ["-r", ConnectRaw(if targetChain == "" then "el" else targetChain, "http", "http", "")]) +
              (if "--tps" in named || "--tpb" in named || "--txs-per-second" in named || "--txs-per-block" in named
               then [] else ["--tps", "20"])
  {
    hide ConnectRaw, AliasGroup, KeptDefaults;
    AliasesExactly(named);
    var ds := Defaults(targetChain);
    assert ds == [] + [ds[0]] + [ds[1]] + [ds[2]] + [ds[3]];
    NoDefaults(named);
    KeptSnoc([], ds[0], named);
    KeptSnoc([] + [ds[0]], ds[1], named);
    KeptSnoc([] + [ds[0]] + [ds[1]], ds[2], named);
    KeptSnoc([] + [ds[0]] + [ds[1]] + [ds[2]], ds[3], named);
  }

  lemma NoDefaults(named: set<string>)
    ensures KeptDefaults([], named) == []
  {
  }

  lemma KeptSnoc(ds: seq<Opt>, d: Opt, named: set<string>)
    ensures KeptDefaults(ds + [d], named) ==
            KeptDefaults(ds, named) +
            if AliasGroup(d.name) !! named then (if d.hasVal then [d.name, d.val] else [d.name]) else []
  {
    hide AliasGroup;
    assert (ds + [d])[..|ds + [d]| - 1] == ds && (ds + [d])[|ds|] == d;
  }

  lemma AliasesExactly(named: set<string>)
    ensures AliasGroup("-l") !! named <==> "-l" !in named && "--loops" !in named
    ensures AliasGroup("--min-balance") !! named <==> "--min-balance" !in named
    ensures AliasGroup("-r") !! named <==> "-r" !in named && "--rpc-url" !in named
    ensures AliasGroup("--tps") !! named <==>
              "--tps" !in named && "--tpb" !in named && "--txs-per-second" !in named && "--txs-per-block" !in named
  {
  }

  // A flag without a value is one argument, one with "=" is one that holds both,
  // any other is two: the name and then the value.
  lemma RenderExactly(e: Extra)
    ensures |Render(e)| == if e.hasVal && !e.usedEq then 2 else 1
    ensures |Render(e)| == 2 ==> Render(e)[0] == e.name && Render(e)[1] == e.val
    ensures |Render(e)| == 1 && !e.hasVal ==> Render(e)[0] == e.name
    ensures |Render(e)| == 1 && e.hasVal ==> Render(e)[0] == e.name + "=" + e.val
  {
  }

  // The rendered arguments follow each other like the given ones.
  lemma {:induction false} RenderedInOrder(a: seq<string>, b: seq<string>)
    ensures RenderedExtras(a + b) == RenderedExtras(a) + RenderedExtras(b)
  {
    hide ParseKV, Render;
    if b == [] {
      assert a + b == a && RenderedExtras(a) + [] == RenderedExtras(a);
    } else {
      var n := |b| - 1;
      RenderedInOrder(a, b[..n]);
      assert (a + b)[..|a + b| - 1] == a + b[..n] && (a + b)[|a + b| - 1] == b[n];
    }
  }

  // The conflict rules as they are written down.
  method Conflict(flag: string, seen: set<string>) returns (r: bool)
    ensures r <==> !(AliasGroup(flag) !! seen)
  {
    if flag in seen {
      return true;
    }
    if flag == "-l" && "--loops" in seen {
      return true;
    }
    if flag == "-r" && "--rpc-url" in seen {
      return true;
    }
    if (flag == "--tpb" || flag == "--txs-per-second" || flag == "--tps" || flag == "--txs-per-block") &&
       ("--tpb" in seen || "--tps" in seen || "--txs-per-second" in seen || "--txs-per-block" in seen)
    {
      return true;
    }
    return false;
  }

  method ParseExtras(extraArgs: seq<string>) returns (extras: seq<Extra>, seen: set<string>)
    ensures seen == Named(extraArgs)
    ensures RenderAll(extras) == RenderedExtras(extraArgs)
  {
    hide ParseKV, Render;
    extras, seen := [], {};
    for k := 0 to |extraArgs|
      invariant seen == Named(extraArgs[..k])
      invariant RenderAll(extras) == RenderedExtras(extraArgs[..k])
    {
      NamedSnoc(extraArgs, k);
      var e := ParseKV(extraArgs[k]);
      if e.name == "" { continue; }
      assert (extras + [e])[..|extras|] == extras;
      extras := extras + [e];
      seen := seen + {e.name};
    }
    assert extraArgs[..|extraArgs|] == extraArgs;
  }

  function RenderAll(extras: seq<Extra>): seq<string> {
    if extras == [] then [] else RenderAll(extras[..|extras| - 1]) + Render(extras[|extras| - 1])
  }

  lemma NamedSnoc(extraArgs: seq<string>, k: nat)
    requires k < |extraArgs|
    ensures var e := ParseKV(extraArgs[k]);
            Named(extraArgs[..k + 1]) == Named(extraArgs[..k]) + (if e.name == "" then {} else {e.name}) &&
            RenderedExtras(extraArgs[..k + 1]) == RenderedExtras(extraArgs[..k]) +
              (if e.name == "" then [] else Render(e))
  {
    hide ParseKV, Render;
    var before, after := extraArgs[..k], extraArgs[..k + 1];
    assert after[..k] == before && after[k] == extraArgs[k];
    assert forall i :: 0 <= i < k ==> after[i] == before[i];
  }

  // Contender.Run: the arguments of the service.
  method BuildArgs(extraArgs: seq<string>, targetChain: string) returns (args: seq<string>)
    ensures args == ["spam"] + KeptDefaults(Defaults(targetChain), Named(extraArgs)) + RenderedExtras(extraArgs)
  {
    hide KeptDefaults, Named, RenderedExtras, Defaults, RenderAll;
    var extras, seen := ParseExtras(extraArgs);
    args := AppendDefaults(["spam"], Defaults(targetChain), seen);
    args := AppendExtras(args, extras);
  }

  method AppendDefaults(front: seq<string>, defaults: seq<Opt>, seen: set<string>) returns (args: seq<string>)
    ensures args == front + KeptDefaults(defaults, seen)
  {
    hide AliasGroup;
    args := front;
    for k := 0 to |defaults|
      invariant args == front + KeptDefaults(defaults[..k], seen)
    {
      assert defaults[..k + 1][..k] == defaults[..k];
      var conflict := Conflict(defaults[k].name, seen);
      if conflict { continue; }
      args := args + [defaults[k].name];
      if defaults[k].hasVal {
        args := args + [defaults[k].val];
      }
    }
    assert defaults[..|defaults|] == defaults;
  }

  method AppendExtras(front: seq<string>, extras: seq<Extra>) returns (args: seq<string>)
    ensures args == front + RenderAll(extras)
  {
    args := front;
    for k := 0 to |extras|
      invariant args == front + RenderAll(extras[..k])
    {
      assert extras[..k + 1][..k] == extras[..k];
      var e := extras[k];
      if !e.hasVal {
        args := args + [e.name];
      } else if e.usedEq {
        args := args + [e.name + "=" + e.val];
      } else {
        args := args + [e.name, e.val];
      }
    }
    assert extras[..|extras|] == extras;
  }

  // Contender.Run: the calls that build the service.
  method ContenderCalls(extraArgs: seq<string>, targetChain: string) returns (calls: seq<BuildOp>)
    ensures calls ==
              [WithImage("flashbots/contender"), WithTag("latest"),
               WithArgs(["spam"] + KeptDefaults(Defaults(targetChain), Named(extraArgs)) + RenderedExtras(extraArgs)),
               WithDependency(DependsOn("beacon", Healthy))] +
              if targetChain == "op-geth" then [WithDependency(DependsOn("op-node", Running))] else []
  {
    hide KeptDefaults, Named, RenderedExtras, Defaults;
    var args := BuildArgs(extraArgs, targetChain);
    calls := [WithImage("flashbots/contender"), WithTag("latest"), WithArgs(args),
              WithDependency(DependsOn("beacon", Healthy))];
    if targetChain == "op-geth" {
      calls := calls + [WithDependency(DependsOn("op-node", Running))];
    }
  }
}
