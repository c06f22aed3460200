// The template language of service arguments: literal text with the actions
// {{Service ..}}, {{Port ..}} and {{PortUDP ..}}, each with quoted-string and
// integer arguments.  Anything else between "{{" and "}}" is an error.
module Template {
  import opened Text

  datatype Action =
    | ServiceRef(service: string, portLabel: string, protocol: string, user: string)
    | PortDecl(name: string, number: int)
    | PortUDPDecl(name: string, number: int)

  datatype Piece = Lit(text: string) | Act(action: Action)

  // ----- scanning -----

  predicate IsBlank(c: char) { c == ' ' || c == '\t' || c == '\r' || c == '\n' }

  predicate IsWordChar(c: char) { 'a' <= c <= 'z' || 'A' <= c <= 'Z' || IsDigit(c) || c == '_' }

  predicate IsInt64(n: int) { -0x8000_0000_0000_0000 <= n < 0x8000_0000_0000_0000 }

  function SkipBlanks(s: string): (r: string)
    ensures |r| <= |s|
  {
    if s != "" && IsBlank(s[0]) then SkipBlanks(s[1..]) else s
  }

  function TakeWhile(p: char -> bool, s: string): (r: (string, string))
    ensures r.0 + r.1 == s
    ensures forall i :: 0 <= i < |r.0| ==> p(r.0[i])
  {
    if s != "" && p(s[0]) then
      var (w, rest) := TakeWhile(p, s[1..]);
      ([s[0]] + w, rest)
    else ("", s)
  }

  // The text up to the closing quote; escapes and line breaks are not accepted.
  function TakeQuoted(s: string): (r: Option<(string, string)>)
    ensures r.Some? ==> |s| == |r.value.0| + 1 + |r.value.1| && Plain(r.value.0)
  {
    if s == "" || s[0] == '\\' || s[0] == '\n' then None
    else if s[0] == '"' then Some(("", s[1..]))
    else
      var (f, rest) :- TakeQuoted(s[1..]);
      Some(([s[0]] + f, rest))
  }

  // A field that needs no escaping between quotes.
  predicate Plain(f: string) {
    forall i :: 0 <= i < |f| ==> f[i] != '"' && f[i] != '\\' && f[i] != '\n'
  }

  function QuotedArg(s: string): (r: Option<(string, string)>)
    ensures r.Some? ==> |s| >= |r.value.0| + 3 + |r.value.1| && Plain(r.value.0)
  {
    if s == "" || !IsBlank(s[0]) then None
    else
      var t := SkipBlanks(s);
      if t == "" || t[0] != '"' then None else TakeQuoted(t[1..])
  }

  function IntArg(s: string): (r: Option<(int, string)>)
    ensures r.Some? ==> |s| >= 1 + |Show(r.value.0)| + |r.value.1| && IsInt64(r.value.0)
  {
    if s == "" || !IsBlank(s[0]) then None
    else
      var t := SkipBlanks(s);
      var negative := t != "" && t[0] == '-';
      var (digits, rest) := TakeWhile(IsDigit, if negative then t[1..] else t);
      var n: int := NatValue(digits);
      if ShowNat(n) != digits || (negative && n == 0) || !IsInt64(if negative then -n else n) then None
      else Some((if negative then -n else n, rest))
  }

  function CloseAction(s: string): (r: Option<string>)
    ensures r.Some? ==> |s| >= 2 + |r.value|
  {
    var t := SkipBlanks(s);
    if At(t, 0, "}}") then Some(t[2..]) else None
  }

  function ScanServiceArgs(s: string): (r: Option<(Action, string)>)
    ensures r.Some? ==> |s| >= |r.value.1|
  {
    var (name, s2) :- QuotedArg(s);
    var (port, s3) :- QuotedArg(s2);
    var (protocol, s4) :- QuotedArg(s3);
    var (user, s5) :- QuotedArg(s4);
    var rest :- CloseAction(s5);
    Some((ServiceRef(name, port, protocol, user), rest))
  }

  function ScanPortArgs(udp: bool, s: string): (r: Option<(Action, string)>)
    ensures r.Some? ==> |s| >= |r.value.1|
  {
    var (name, s2) :- QuotedArg(s);
    var (number, s3) :- IntArg(s2);
    var rest :- CloseAction(s3);
    Some((if udp then PortUDPDecl(name, number) else PortDecl(name, number), rest))
  }

  // Scans one action; s starts just after "{{" and the result ends just after "}}".
  function ScanAction(s: string): (r: Option<(Action, string)>)
    ensures r.Some? ==> |s| >= |r.value.1|
  {
    var (word, args) := TakeWhile(IsWordChar, SkipBlanks(s));
    if word == "Service" then ScanServiceArgs(args)
    else if word == "Port" then ScanPortArgs(false, args)
    else if word == "PortUDP" then ScanPortArgs(true, args)
    else None
  }

  function LitPiece(s: string): seq<Piece> { if s == "" then [] else [Lit(s)] }

  function Scan(s: string): Option<seq<Piece>>
    decreases |s|
  {
    match Find(s, "{{")
    case None => Some(LitPiece(s))
    case Some(i) =>
      var (action, rest) :- ScanAction(s[i + 2..]);
      var tail :- Scan(rest);
      Some(LitPiece(s[..i]) + [Act(action)] + tail)
  }

  // ----- printing -----

  function Quoted(f: string): string { " \"" + f + "\"" }

  // What follows "{{" in the canonical text of an action.
  function ActionBody(a: Action): string {
    match a
    case ServiceRef(s, l, p, u) => "Service" + ServiceArgs(s, l, p, u)
    case PortDecl(n, k) => "Port" + PortArgs(n, k)
    case PortUDPDecl(n, k) => "PortUDP" + PortArgs(n, k)
  }

  function ServiceArgs(service: string, port: string, protocol: string, user: string): string {
    Quoted(service) + (Quoted(port) + (Quoted(protocol) + (Quoted(user) + "}}")))
  }

  function PortArgs(name: string, number: int): string {
    Quoted(name) + (" " + (Show(number) + "}}"))
  }

  function PrintPiece(p: Piece): string {
    match p
    case Lit(t) => t
    case Act(a) => "{{" + ActionBody(a)
  }

  function Print(ps: seq<Piece>): string {
    if ps == [] then "" else PrintPiece(ps[0]) + Print(ps[1..])
  }

  function ConnectRaw(service: string, port: string, protocol: string, user: string): string {
    "{{" + ActionBody(ServiceRef(service, port, protocol, user))
  }

  // ----- the scanner reads back what the printer writes -----

  predicate WellFormedAction(a: Action) {
    match a
    case ServiceRef(s, l, p, u) => Plain(s) && Plain(l) && Plain(p) && Plain(u)
    case PortDecl(n, k) => Plain(n) && IsInt64(k)
    case PortUDPDecl(n, k) => Plain(n) && IsInt64(k)
  }

  // Literals are non-empty, separated by actions, free of "{{", and do not
  // run into the braces of the action that follows.
  predicate WellFormed(ps: seq<Piece>) {
    ps == [] ||
    (match ps[0]
     case Act(a) => WellFormedAction(a) && WellFormed(ps[1..])
     case Lit(t) =>
       t != "" && Find(t, "{{").None? && WellFormed(ps[1..]) &&
       (|ps| > 1 ==> ps[1].Act? && t[|t| - 1] != '{'))
  }

  lemma Associate(a: string, b: string, c: string)
    ensures (a + b) + c == a + (b + c)
  {
  }

  lemma {:induction false} TakeWhileAppend(p: char -> bool, w: string, s: string)
    requires forall i :: 0 <= i < |w| ==> p(w[i])
    requires s == "" || !p(s[0])
    ensures TakeWhile(p, w + s) == (w, s)
  {
    if w == "" {
      assert w + s == s;
    } else {
      TakeWhileAppend(p, w[1..], s);
      assert (w + s)[1..] == w[1..] + s;
      assert [w[0]] + w[1..] == w;
    }
  }

  lemma {:induction false} TakeQuotedAppend(f: string, s: string)
    requires Plain(f)
    ensures TakeQuoted(f + "\"" + s) == Some((f, s))
  {
    var t := f + "\"" + s;
    if f == "" {
      assert t == "\"" + s;
    } else {
      TakeQuotedAppend(f[1..], s);
      assert t[1..] == f[1..] + "\"" + s;
      assert [f[0]] + f[1..] == f;
    }
  }

  lemma QuotedArgAppend(f: string, s: string)
    requires Plain(f)
    ensures QuotedArg(Quoted(f) + s) == Some((f, s))
  {
    var t := Quoted(f) + s;
    assert t[1..] == "\"" + (f + "\"" + s);
    assert SkipBlanks(t) == t[1..];
    TakeQuotedAppend(f, s);
  }

  lemma SkipOneBlank(s: string)
    requires s != "" && !IsBlank(s[0])
    ensures SkipBlanks(" " + s) == s
  {
    assert (" " + s)[1..] == s;
    assert SkipBlanks(s) == s;
  }

  lemma DigitsAppend(n: nat, s: string)
    requires s == "" || !IsDigit(s[0])
    ensures TakeWhile(IsDigit, ShowNat(n) + s) == (ShowNat(n), s)
    ensures NatValue(ShowNat(n)) == n
  {
    ShowNatValue(n);
    TakeWhileAppend(IsDigit, ShowNat(n), s);
  }

  lemma IntArgAppend(k: int, s: string)
    requires IsInt64(k)
    requires s == "" || !IsDigit(s[0])
    ensures IntArg(" " + (Show(k) + s)) == Some((k, s))
  {
    var n: nat := if k < 0 then -k else k;
    DigitsAppend(n, s);
    if k < 0 {
      Associate("-", ShowNat(n), s);
    }
    IntArgSteps(Show(k) + s, k < 0, n, ShowNat(n), s);
  }

  lemma IntArgSteps(t: string, negative: bool, n: int, digits: string, s: string)
    requires n >= 0 && digits == ShowNat(n) && NatValue(digits) == n
    requires t == if negative then "-" + (digits + s) else digits + s
    requires TakeWhile(IsDigit, digits + s) == (digits, s)
    requires negative ==> n != 0
    requires IsInt64(if negative then -n else n)
    ensures IntArg(" " + t) == Some((if negative then -n else n, s))
  {
    hide ShowNat, NatValue, TakeWhile;
    assert negative <==> t[0] == '-';
    assert negative ==> t[1..] == digits + s;
    SkipOneBlank(t);
    assert (" " + t)[0] == ' ';
  }

  lemma CloseActionAppend(s: string)
    ensures CloseAction("}}" + s) == Some(s)
  {
    assert At("}}" + s, 0, "}}");
  }

  lemma WordAppend(word: string, s: string)
    requires word != "" && forall i :: 0 <= i < |word| ==> IsWordChar(word[i])
    requires s != "" && !IsWordChar(s[0])
    ensures TakeWhile(IsWordChar, SkipBlanks(word + s)) == (word, s)
  {
    assert !IsBlank((word + s)[0]);
    TakeWhileAppend(IsWordChar, word, s);
  }

  lemma ScanServiceArgsAppend(s: string, l: string, p: string, u: string, rest: string)
    requires Plain(s) && Plain(l) && Plain(p) && Plain(u)
    ensures ScanServiceArgs(ServiceArgs(s, l, p, u) + rest) == Some((ServiceRef(s, l, p, u), rest))
  {
    var s5 := "}}" + rest;
    var s4 := Quoted(u) + s5;
    var s3 := Quoted(p) + s4;
    var s2 := Quoted(l) + s3;
    var s1 := Quoted(s) + s2;
    assert ServiceArgs(s, l, p, u) + rest == s1;
    QuotedArgAppend(s, s2);
    QuotedArgAppend(l, s3);
    QuotedArgAppend(p, s4);
    QuotedArgAppend(u, s5);
    CloseActionAppend(rest);
  }

  lemma ScanPortArgsAppend(udp: bool, name: string, k: int, rest: string)
    requires Plain(name) && IsInt64(k)
    ensures ScanPortArgs(udp, PortArgs(name, k) + rest)
         == Some((if udp then PortUDPDecl(name, k) else PortDecl(name, k), rest))
  {
    var s3 := "}}" + rest;
    var s2 := " " + (Show(k) + s3);
    assert PortArgs(name, k) + rest == Quoted(name) + s2;
    QuotedArgAppend(name, s2);
    IntArgAppend(k, s3);
    CloseActionAppend(rest);
  }

  lemma ScanPrintedAction(a: Action, rest: string)
    requires WellFormedAction(a)
    ensures ScanAction(ActionBody(a) + rest) == Some((a, rest))
  {
    match a
    case ServiceRef(s, l, p, u) =>
      var args := ServiceArgs(s, l, p, u);
      Associate("Service", args, rest);
      WordAppend("Service", args + rest);
      ScanServiceArgsAppend(s, l, p, u, rest);
    case PortDecl(n, k) =>
      Associate("Port", PortArgs(n, k), rest);
      WordAppend("Port", PortArgs(n, k) + rest);
      ScanPortArgsAppend(false, n, k, rest);
    case PortUDPDecl(n, k) =>
      Associate("PortUDP", PortArgs(n, k), rest);
      WordAppend("PortUDP", PortArgs(n, k) + rest);
      ScanPortArgsAppend(true, n, k, rest);
  }

  lemma ScannedServiceArgs(s: string)
    requires ScanServiceArgs(s).Some?
    ensures var (a, rest) := ScanServiceArgs(s).value;
            a.ServiceRef? && WellFormedAction(a) && |s| + 7 >= |ActionBody(a)| + |rest|
  {
  }

  lemma ScannedPortArgs(udp: bool, s: string)
    requires ScanPortArgs(udp, s).Some?
    ensures var (a, rest) := ScanPortArgs(udp, s).value;
            (if udp then a.PortUDPDecl? else a.PortDecl?) && WellFormedAction(a)
            && |s| + (if udp then 7 else 4) >= |ActionBody(a)| + |rest|
  {
  }

  // A scanned action is well formed and its canonical text is no longer than
  // the text it was read from.
  lemma ScannedAction(s: string)
    requires ScanAction(s).Some?
    ensures var (a, rest) := ScanAction(s).value;
            WellFormedAction(a) && |s| >= |ActionBody(a)| + |rest|
  {
    var (word, args) := TakeWhile(IsWordChar, SkipBlanks(s));
    assert |s| >= |word| + |args|;
    if word == "Service" {
      ScannedServiceArgs(args);
    } else {
      ScannedPortArgs(word == "PortUDP", args);
    }
  }

  // The first "{{" of a literal followed by an action is the one of the action.
  lemma FindOpen(t: string, s: string)
    requires Find(t, "{{").None?
    requires t != "" ==> t[|t| - 1] != '{'
    ensures Find(t + "{{" + s, "{{") == Some(|t|)
  {
    var u := t + "{{" + s;
    assert At(u, |t|, "{{");
    forall i: nat | i < |t|
      ensures !At(u, i, "{{")
    {
      if i + 2 <= |t| {
        assert !At(t, i, "{{");
        assert u[i..i + 2] == t[i..i + 2];
      } else {
        assert u[i..i + 2][0] == t[|t| - 1];
      }
    }
  }

  lemma ScanStep(t: string, a: Action, tail: seq<Piece>, rest: string)
    requires WellFormedAction(a)
    requires Find(t, "{{").None?
    requires t != "" ==> t[|t| - 1] != '{'
    requires Scan(rest) == Some(tail)
    ensures Scan(t + PrintPiece(Act(a)) + rest) == Some(LitPiece(t) + [Act(a)] + tail)
  {
    hide Find, ScanAction, ActionBody, WellFormedAction;
    var u := t + PrintPiece(Act(a)) + rest;
    assert u == t + "{{" + (ActionBody(a) + rest);
    FindOpen(t, ActionBody(a) + rest);
    assert u[|t| + 2..] == ActionBody(a) + rest;
    assert u[..|t|] == t;
    ScanPrintedAction(a, rest);
  }

  lemma PrintCons(p: Piece, ps: seq<Piece>)
    ensures Print([p] + ps) == PrintPiece(p) + Print(ps)
  {
    assert ([p] + ps)[1..] == ps;
  }

  lemma WellFormedCons(p: Piece, ps: seq<Piece>)
    requires WellFormed([p] + ps)
    ensures WellFormed(ps)
    ensures p.Act? ==> WellFormedAction(p.action)
    ensures p.Lit? ==> p.text != "" && Find(p.text, "{{").None?
    ensures p.Lit? && ps != [] ==> ps[0].Act? && p.text[|p.text| - 1] != '{'
  {
    assert ([p] + ps)[1..] == ps;
    if ps != [] { assert ([p] + ps)[1] == ps[0]; }
  }

  // The text of an optional literal and the action after it.
  lemma PrintSplit(t: string, a: Action, tail: seq<Piece>)
    ensures Print(LitPiece(t) + [Act(a)] + tail) == t + PrintPiece(Act(a)) + Print(tail)
  {
    var acts := [Act(a)] + tail;
    PrintCons(Act(a), tail);
    Associate(t, PrintPiece(Act(a)), Print(tail));
    if t == "" {
      assert LitPiece(t) + [Act(a)] + tail == acts;
    } else {
      PrintCons(Lit(t), acts);
      assert LitPiece(t) + [Act(a)] + tail == [Lit(t)] + acts;
    }
  }

  lemma {:induction false} ScanPrint(ps: seq<Piece>)
    requires WellFormed(ps)
    ensures Scan(Print(ps)) == Some(ps)
    decreases |ps|
  {
    var (t, rest) := SplitLit(ps);
    if rest == [] {
      ScanPrintLit(t);
      assert LitPiece(t) + [] == LitPiece(t);
    } else {
      var a, tail := rest[0].action, rest[1..];
      ScanPrint(tail);
      ScanPrintTwo(t, a, tail);
      assert LitPiece(t) + [Act(a)] + tail == ps;
    }
  }

  // The leading literal, if any, and the pieces from the first action on.
  function SplitLit(ps: seq<Piece>): (r: (string, seq<Piece>))
    requires WellFormed(ps)
    ensures LitPiece(r.0) + r.1 == ps
    ensures Find(r.0, "{{").None?
    ensures r.1 != [] ==> r.1[0].Act? && WellFormedAction(r.1[0].action) && WellFormed(r.1[1..])
    ensures r.1 != [] && r.0 != "" ==> r.0[|r.0| - 1] != '{'
  {
    if ps != [] && ps[0].Lit? then
      assert [ps[0]] + ps[1..] == ps;
      WellFormedCons(ps[0], ps[1..]);
      assert |ps| > 1 ==> ps[1..] == [ps[1]] + ps[1..][1..];
      (ps[0].text, ps[1..])
    else ("", ps)
  }

  lemma ScanPrintLit(t: string)
    requires Find(t, "{{").None?
    ensures Scan(Print(LitPiece(t))) == Some(LitPiece(t))
  {
    PrintLitPiece(t, []);
    assert LitPiece(t) + [] == LitPiece(t);
    assert t + Print([]) == t;
  }

  lemma ScanPrintTwo(t: string, a: Action, tail: seq<Piece>)
    requires WellFormedAction(a)
    requires Find(t, "{{").None?
    requires t != "" ==> t[|t| - 1] != '{'
    requires Scan(Print(tail)) == Some(tail)
    ensures Scan(Print(LitPiece(t) + [Act(a)] + tail)) == Some(LitPiece(t) + [Act(a)] + tail)
  {
    PrintSplit(t, a, tail);
    ScanStep(t, a, tail, Print(tail));
  }

  lemma ConnectRawRoundTrip(service: string, port: string, protocol: string, user: string)
    requires Plain(service) && Plain(port) && Plain(protocol) && Plain(user)
    ensures Scan(ConnectRaw(service, port, protocol, user)) == Some([Act(ServiceRef(service, port, protocol, user))])
  {
    var a := ServiceRef(service, port, protocol, user);
    ScanStep("", a, [], "");
    var text := PrintPiece(Act(a));
    assert "" + text + "" == text;
    assert LitPiece("") + [Act(a)] + [] == [Act(a)];
  }

  // A template survives printing and scanning exactly if it is well formed.
  lemma ScanPrintExactly(ps: seq<Piece>)
    ensures Scan(Print(ps)) == Some(ps) <==> WellFormed(ps)
  {
    hide Scan, WellFormed, Print;
    if WellFormed(ps) { ScanPrint(ps); }
    if Scan(Print(ps)) == Some(ps) { ScanWellFormed(Print(ps)); }
  }

  // A connection string reads as its four fields exactly if none needs escaping.
  lemma ConnectRawExactly(service: string, port: string, protocol: string, user: string)
    ensures Scan(ConnectRaw(service, port, protocol, user)) == Some([Act(ServiceRef(service, port, protocol, user))])
            <==> Plain(service) && Plain(port) && Plain(protocol) && Plain(user)
  {
    hide Scan, ConnectRaw, Plain;
    if Plain(service) && Plain(port) && Plain(protocol) && Plain(user) {
      ConnectRawRoundTrip(service, port, protocol, user);
    }
    var ps := [Act(ServiceRef(service, port, protocol, user))];
    if Scan(ConnectRaw(service, port, protocol, user)) == Some(ps) {
      ScanWellFormed(ConnectRaw(service, port, protocol, user));
      assert WellFormed(ps) && WellFormedAction(ps[0].action);
    }
  }

  // What the scanner returns is well formed, and its canonical text is never
  // longer than the text it came from.
  lemma {:induction false} ScanWellFormed(s: string)
    requires Scan(s).Some?
    ensures WellFormed(Scan(s).value)
    ensures |Print(Scan(s).value)| <= |s|
    decreases |s|
  {
    hide ScanAction, ActionBody, WellFormedAction;
    match Find(s, "{{")
    case None =>
      PrintLitPiece(s, []);
    case Some(i) =>
      var (a, rest) := ScanAction(s[i + 2..]).value;
      ScannedAction(s[i + 2..]);
      ScanWellFormed(rest);
      ScanWellFormedStep(s, i, a, Scan(rest).value);
  }

  lemma PrintLitPiece(t: string, tail: seq<Piece>)
    requires Find(t, "{{").None?
    requires WellFormed(tail)
    requires t != "" && tail != [] ==> tail[0].Act? && t[|t| - 1] != '{'
    ensures Print(LitPiece(t) + tail) == t + Print(tail)
    ensures WellFormed(LitPiece(t) + tail)
  {
    if t == "" {
      assert LitPiece(t) + tail == tail;
    } else {
      PrintCons(Lit(t), tail);
      assert ([Lit(t)] + tail)[1..] == tail;
    }
  }

  lemma ScanWellFormedStep(s: string, i: nat, a: Action, tail: seq<Piece>)
    requires Find(s, "{{") == Some(i)
    requires WellFormedAction(a) && WellFormed(tail)
    ensures WellFormed(LitPiece(s[..i]) + [Act(a)] + tail)
    ensures |Print(LitPiece(s[..i]) + [Act(a)] + tail)| == i + 2 + |ActionBody(a)| + |Print(tail)|
  {
    var t, acts := s[..i], [Act(a)] + tail;
    assert acts[1..] == tail && acts[0] == Act(a);
    PrintCons(Act(a), tail);
    PrefixNoOpen(s, i);
    PrintLitPiece(t, acts);
    assert LitPiece(t) + [Act(a)] + tail == LitPiece(t) + acts;
  }

  lemma PrefixNoOpen(s: string, i: nat)
    requires At(s, i, "{{") && forall j: nat :: j < i ==> !At(s, j, "{{")
    ensures Find(s[..i], "{{").None?
    ensures i > 0 ==> s[..i][i - 1] != '{'
  {
    if i > 0 && s[i - 1] == '{' {
      assert s[i] == s[i..i + 2][0] == '{';
      assert s[i - 1..i + 1] == "{{";
      assert At(s, i - 1, "{{");
    }
    forall j: nat | j + 2 <= i
      ensures !At(s[..i], j, "{{")
    {
      assert s[..i][j..j + 2] == s[j..j + 2];
      assert !At(s, j, "{{");
    }
  }

  // ----- blanks between the parts of an action do not matter -----

  predicate Blanks(b: string) {
    forall i :: 0 <= i < |b| ==> b[i] == ' ' || b[i] == '\t' || b[i] == '\r' || b[i] == '\n'
  }

  lemma {:induction false} BlanksSkipped(b: string, s: string)
    requires Blanks(b) && (s == "" || !IsBlank(s[0]))
    ensures SkipBlanks(b + s) == s
  {
    if b == "" {
      assert b + s == s;
    } else {
      BlanksSkipped(b[1..], s);
      assert (b + s)[1..] == b[1..] + s && (b + s)[0] == b[0];
    }
  }

  lemma SpacedQuoted(b: string, f: string, s: string)
    requires Blanks(b) && b != "" && Plain(f)
    ensures QuotedArg(b + ("\"" + (f + "\"" + s))) == Some((f, s))
  {
    hide SkipBlanks, TakeQuoted;
    var t := "\"" + (f + "\"" + s);
    BlanksSkipped(b, t);
    assert t[1..] == f + "\"" + s && (b + t)[0] == b[0];
    TakeQuotedAppend(f, s);
  }

  lemma SpacedInt(b: string, k: int, s: string)
    requires Blanks(b) && b != "" && IsInt64(k) && (s == "" || !IsDigit(s[0]))
    ensures IntArg(b + (Show(k) + s)) == Some((k, s))
  {
    hide SkipBlanks, ShowNat, NatValue, TakeWhile;
    var t := Show(k) + s;
    IntArgAppend(k, s);
    assert !IsBlank(t[0]);
    BlanksSkipped(b, t);
    SkipOneBlank(t);
    assert (b + t)[0] == b[0] && (" " + t)[0] == ' ';
  }

  lemma SpacedClose(b: string, s: string)
    requires Blanks(b)
    ensures CloseAction(b + ("}}" + s)) == Some(s)
  {
    hide SkipBlanks;
    BlanksSkipped(b, "}}" + s);
    assert At("}}" + s, 0, "}}");
  }

  lemma SpacedWord(b: string, word: string, s: string)
    requires Blanks(b) && word != "" && forall i :: 0 <= i < |word| ==> IsWordChar(word[i])
    requires s != "" && !IsWordChar(s[0])
    ensures TakeWhile(IsWordChar, SkipBlanks(b + (word + s))) == (word, s)
  {
    hide SkipBlanks;
    assert (word + s)[0] == word[0];
    BlanksSkipped(b, word + s);
    TakeWhileAppend(IsWordChar, word, s);
  }

  // A declaration with any blanks between its parts reads like the canonical one.
  lemma SpacedPort(b0: string, b1: string, name: string, b2: string, number: int, b3: string)
    requires Blanks(b0) && Blanks(b1) && Blanks(b2) && Blanks(b3) && b1 != "" && b2 != ""
    requires Plain(name) && IsInt64(number)
    ensures Scan("{{" + (b0 + ("Port" + (b1 + ("\"" + (name + "\"" + (b2 + (Show(number) + (b3 + "}}"))))))))) ==
            Some([Act(PortDecl(name, number))])
  {
    hide QuotedArg, IntArg, CloseAction, SkipBlanks, TakeWhile, Show;
    var s3 := b3 + ("}}" + "");
    var s2 := b2 + (Show(number) + s3);
    var s1 := b1 + ("\"" + (name + "\"" + s2));
    var s0 := b0 + ("Port" + s1);
    assert "}}" + "" == "}}";
    SpacedWord(b0, "Port", s1);
    SpacedQuoted(b1, name, s2);
    assert s3[0] == if b3 == "" then '}' else b3[0];
    SpacedInt(b2, number, s3);
    SpacedClose(b3, "");
    assert ScanAction(s0) == Some((PortDecl(name, number), ""));
    ScanOne(s0, PortDecl(name, number));
  }

  lemma ScanOne(s: string, a: Action)
    requires ScanAction(s) == Some((a, ""))
    ensures Scan("{{" + s) == Some([Act(a)])
  {
    hide ScanAction, Find;
    var u := "{{" + s;
    assert "" + "{{" + s == u;
    NothingOpens();
    FindOpen("", s);
    assert u[2..] == s && u[..0] == "";
    assert Scan("") == Some([]);
    assert LitPiece("") + [Act(a)] + [] == [Act(a)];
  }

  lemma NothingOpens()
    ensures Find("", "{{").None?
  {
  }

  // ----- the first pass -----

  datatype FirstPassResult =
    | FirstPassOk(text: string, pieces: seq<Piece>)
    | FirstPassPanic

  predicate EmptyReference(p: Piece) {
    p.Act? && p.action.ServiceRef? && (p.action.service == "" || p.action.portLabel == "")
  }

  const ESCAPED_QUOTE := "&#34;"

  // Parses and re-prints a template; the ports and references it collects are
  // those of its pieces.
  function FirstPass(s: string): FirstPassResult {
    match Scan(s)
    case None => FirstPassPanic
    case Some(ps) =>
      if exists i :: 0 <= i < |ps| && EmptyReference(ps[i]) then FirstPassPanic
      else FirstPassOk(ReplaceAll(Print(ps), ESCAPED_QUOTE, "\""), ps)
  }

  // The first pass panics exactly on a text that is no template and on a reference
  // without a service or without a port; protocol and user may be empty.
  lemma FirstPassPanicsExactly(s: string)
    ensures FirstPass(s).FirstPassPanic? <==>
            Scan(s).None? ||
            exists service, port, protocol, user ::
              Act(ServiceRef(service, port, protocol, user)) in Scan(s).value && (service == "" || port == "")
  {
    hide Scan, Print, ReplaceAll;
    if Scan(s).Some? {
      var ps := Scan(s).value;
      if i :| 0 <= i < |ps| && EmptyReference(ps[i]) {
        var a := ps[i].action;
        assert Act(ServiceRef(a.service, a.portLabel, a.protocol, a.user)) in ps;
      }
      if service, port, protocol, user :|
        Act(ServiceRef(service, port, protocol, user)) in ps && (service == "" || port == "") {
        var i :| 0 <= i < |ps| && ps[i] == Act(ServiceRef(service, port, protocol, user));
        assert EmptyReference(ps[i]);
      }
    }
  }

  // So a connection string passes, with or without a user.
  lemma ConnectPasses(service: string, port: string, protocol: string, user: string)
    requires Plain(service) && Plain(port) && Plain(protocol) && Plain(user)
    ensures FirstPass(ConnectRaw(service, port, protocol, user)).FirstPassOk? <==> service != "" && port != ""
    ensures service != "" && port != "" ==>
              FirstPass(ConnectRaw(service, port, protocol, user)).pieces ==
                [Act(ServiceRef(service, port, protocol, user))]
  {
    hide Scan, ConnectRaw, Print, ReplaceAll, Plain;
    ConnectRawRoundTrip(service, port, protocol, user);
    var a := Act(ServiceRef(service, port, protocol, user));
    assert EmptyReference([a][0]) <==> service == "" || port == "";
  }

  // ----- escaped quotes in a text and in its pieces -----

  predicate Escaped(s: string) { Contains(s, ESCAPED_QUOTE) }

  predicate ActionEscaped(a: Action) {
    match a
    case ServiceRef(s, l, p, u) => Escaped(s) || Escaped(l) || Escaped(p) || Escaped(u)
    case PortDecl(n, _) => Escaped(n)
    case PortUDPDecl(n, _) => Escaped(n)
  }

  predicate PiecesEscaped(ps: seq<Piece>) {
    ps != [] && ((match ps[0] case Lit(t) => Escaped(t) case Act(a) => ActionEscaped(a)) || PiecesEscaped(ps[1..]))
  }

  lemma EscapedHead(s: string)
    requires s != ""
    ensures Escaped(s) <==> (|s| >= 5 && s[..5] == ESCAPED_QUOTE) || Escaped(s[1..])
  {
    if Escaped(s) {
      var i: nat :| i <= |s| && At(s, i, ESCAPED_QUOTE);
      if i > 0 {
        DropOne(s, i, 5);
        assert At(s[1..], i - 1, ESCAPED_QUOTE);
      }
    }
    if Escaped(s[1..]) {
      var i: nat :| i <= |s[1..]| && At(s[1..], i, ESCAPED_QUOTE);
      DropOne(s, i + 1, 5);
      assert At(s, i + 1, ESCAPED_QUOTE);
    }
    if |s| >= 5 && s[..5] == ESCAPED_QUOTE { assert At(s, 0, ESCAPED_QUOTE); }
  }

  lemma EscapedDrop(s: string)
    requires s != "" && s[0] != '&'
    ensures Escaped(s) <==> Escaped(s[1..])
  {
    hide Escaped;
    EscapedHead(s);
    if |s| >= 5 { assert s[..5][0] == s[0]; }
  }

  // An escaped quote does not reach over a character that it does not contain.
  lemma {:induction false} EscapedSplit(a: string, c: char, b: string)
    requires c !in ESCAPED_QUOTE
    ensures Escaped(a + [c] + b) <==> Escaped(a) || Escaped(b)
  {
    hide Escaped;
    var s := a + [c] + b;
    if a == "" {
      assert s[1..] == b && ESCAPED_QUOTE[0] == '&';
      EscapedDrop(s);
      NothingEscaped();
    } else {
      assert s[1..] == a[1..] + [c] + b;
      EscapedSplit(a[1..], c, b);
      EscapedHead(s);
      EscapedHead(a);
      if |a| < 5 <= |s| { assert s[..5][|a|] == c; }
      if |a| >= 5 { assert s[..5] == a[..5]; }
    }
  }

  lemma NothingEscaped()
    ensures !Escaped("")
  {
  }

  lemma {:induction false} BlanksEscaped(s: string)
    ensures Escaped(s) <==> Escaped(SkipBlanks(s))
  {
    hide Escaped;
    if s != "" && IsBlank(s[0]) {
      EscapedDrop(s);
      BlanksEscaped(s[1..]);
    }
  }

  lemma {:induction false} WhileEscaped(p: char -> bool, s: string)
    requires !p('&')
    ensures Escaped(s) <==> Escaped(TakeWhile(p, s).1)
  {
    hide Escaped;
    if s != "" && p(s[0]) {
      EscapedDrop(s);
      WhileEscaped(p, s[1..]);
    }
  }

  lemma {:induction false} TakeQuotedSplits(s: string)
    requires TakeQuoted(s).Some?
    ensures var (f, rest) := TakeQuoted(s).value; s == f + "\"" + rest
  {
    if s[0] == '"' {
      assert s == "" + "\"" + s[1..];
    } else {
      TakeQuotedSplits(s[1..]);
      assert s == [s[0]] + s[1..];
    }
  }

  lemma QuotedEscaped(s: string)
    requires QuotedArg(s).Some?
    ensures var (f, rest) := QuotedArg(s).value; Escaped(s) <==> Escaped(f) || Escaped(rest)
  {
    hide Escaped;
    var t := SkipBlanks(s);
    var (f, rest) := QuotedArg(s).value;
    BlanksEscaped(s);
    EscapedDrop(t);
    TakeQuotedSplits(t[1..]);
    EscapedSplit(f, '"', rest);
  }

  lemma IntEscaped(s: string)
    requires IntArg(s).Some?
    ensures Escaped(s) <==> Escaped(IntArg(s).value.1)
  {
    hide Escaped, ShowNat, NatValue, TakeWhile;
    var t := SkipBlanks(s);
    BlanksEscaped(s);
    if t != "" && t[0] == '-' {
      EscapedDrop(t);
      WhileEscaped(IsDigit, t[1..]);
    } else {
      WhileEscaped(IsDigit, t);
    }
  }

  lemma CloseEscaped(s: string)
    requires CloseAction(s).Some?
    ensures Escaped(s) <==> Escaped(CloseAction(s).value)
  {
    hide Escaped;
    var t := SkipBlanks(s);
    BlanksEscaped(s);
    assert t[0] == t[0..2][0] && t[1] == t[0..2][1];
    EscapedDrop(t);
    EscapedDrop(t[1..]);
    assert t[1..][1..] == t[2..];
  }

  lemma ServiceEscaped(s: string)
    requires ScanServiceArgs(s).Some?
    ensures var (a, rest) := ScanServiceArgs(s).value; Escaped(s) <==> ActionEscaped(a) || Escaped(rest)
  {
    hide Escaped, QuotedArg, CloseAction;
    var (name, s2) := QuotedArg(s).value;
    var (port, s3) := QuotedArg(s2).value;
    var (protocol, s4) := QuotedArg(s3).value;
    var (user, s5) := QuotedArg(s4).value;
    QuotedEscaped(s);
    QuotedEscaped(s2);
    QuotedEscaped(s3);
    QuotedEscaped(s4);
    CloseEscaped(s5);
  }

  lemma PortEscaped(udp: bool, s: string)
    requires ScanPortArgs(udp, s).Some?
    ensures var (a, rest) := ScanPortArgs(udp, s).value; Escaped(s) <==> ActionEscaped(a) || Escaped(rest)
  {
    hide Escaped, QuotedArg, IntArg, CloseAction;
    var (name, s2) := QuotedArg(s).value;
    var (number, s3) := IntArg(s2).value;
    QuotedEscaped(s);
    IntEscaped(s2);
    CloseEscaped(s3);
  }

  lemma ScanActionEscaped(s: string)
    requires ScanAction(s).Some?
    ensures var (a, rest) := ScanAction(s).value; Escaped(s) <==> ActionEscaped(a) || Escaped(rest)
  {
    hide Escaped, ActionEscaped, ScanServiceArgs, ScanPortArgs, TakeWhile;
    var (word, args) := TakeWhile(IsWordChar, SkipBlanks(s));
    BlanksEscaped(s);
    WhileEscaped(IsWordChar, SkipBlanks(s));
    if word == "Service" { ServiceEscaped(args); } else { PortEscaped(word == "PortUDP", args); }
  }

  // A template contains an escaped quote exactly when a literal or a field of it does.
  lemma {:induction false} ScanEscaped(s: string)
    requires Scan(s).Some?
    ensures Escaped(s) <==> PiecesEscaped(Scan(s).value)
    decreases |s|
  {
    hide Escaped, ActionEscaped, ScanAction;
    NothingEscaped();
    match Find(s, "{{")
    case None =>
    case Some(i) =>
      var (a, rest) := ScanAction(s[i + 2..]).value;
      var tail := Scan(rest).value;
      ScanActionEscaped(s[i + 2..]);
      ScanEscaped(rest);
      OpenEscaped(s, i);
      PiecesEscapedCons(s[..i], a, tail);
  }

  lemma OpenEscaped(s: string, i: nat)
    requires At(s, i, "{{")
    ensures Escaped(s) <==> Escaped(s[..i]) || Escaped(s[i + 2..])
  {
    hide Escaped;
    var open := s[i..i + 2];
    assert s == s[..i] + [open[0]] + ([open[1]] + s[i + 2..]);
    EscapedSplit(s[..i], '{', [open[1]] + s[i + 2..]);
    assert ([open[1]] + s[i + 2..])[1..] == s[i + 2..];
    EscapedDrop([open[1]] + s[i + 2..]);
  }

  lemma PiecesEscapedCons(t: string, a: Action, tail: seq<Piece>)
    ensures PiecesEscaped(LitPiece(t) + [Act(a)] + tail) <==> Escaped(t) || ActionEscaped(a) || PiecesEscaped(tail)
  {
    hide Escaped, ActionEscaped;
    NothingEscaped();
    var acts := [Act(a)] + tail;
    assert acts[1..] == tail;
    if t == "" {
      assert LitPiece(t) + [Act(a)] + tail == acts;
    } else {
      assert LitPiece(t) + [Act(a)] + tail == [Lit(t)] + acts;
      assert ([Lit(t)] + acts)[1..] == acts;
    }
  }

  // Printing a scanned text in its canonical form adds and removes no escaped quote.
  lemma PrintedEscaped(s: string)
    requires Scan(s).Some?
    ensures Escaped(Print(Scan(s).value)) <==> Escaped(s)
  {
    hide Escaped, Scan, Print;
    ScanWellFormed(s);
    ScanPrint(Scan(s).value);
    ScanEscaped(s);
    ScanEscaped(Print(Scan(s).value));
  }

  // Re-printing keeps every piece exactly when there was no escaped quote to replace.
  lemma FirstPassStable(s: string)
    requires FirstPass(s).FirstPassOk?
    ensures FirstPass(FirstPass(s).text) == FirstPass(s) <==> !Contains(s, ESCAPED_QUOTE)
    ensures Scan(FirstPass(s).text) == Scan(s) <==> !Contains(s, ESCAPED_QUOTE)
  {
    hide Scan;
    var ps := Scan(s).value;
    var printed := Print(ps);
    var text := FirstPass(s).text;
    ScanWellFormed(s);
    PrintedEscaped(s);
    ReplaceAllLength(printed, ESCAPED_QUOTE, "\"");
    if Contains(s, ESCAPED_QUOTE) {
      if Scan(text) == Some(ps) {
        ScanWellFormed(text);
        assert false;
      }
    } else {
      ScanPrint(ps);
    }
  }

  // An argument with an escaped quote in a field reads differently after the first pass.
  lemma EscapedQuoteIsLost(service: string, port: string)
    requires Plain(service) && Plain(port) && service != "" && port != ""
    ensures var s := ConnectRaw(service, port, "http", ESCAPED_QUOTE);
            FirstPass(s).FirstPassOk? && Scan(FirstPass(s).text) != Scan(s)
  {
    hide Scan;
    var a := ServiceRef(service, port, "http", ESCAPED_QUOTE);
    var s := ConnectRaw(service, port, "http", ESCAPED_QUOTE);
    ConnectRawRoundTrip(service, port, "http", ESCAPED_QUOTE);
    assert FirstPass(s).FirstPassOk?;
    NothingEscaped();
    assert At(ESCAPED_QUOTE, 0, ESCAPED_QUOTE);
    assert PiecesEscaped([Act(a)]);
    ScanEscaped(s);
    FirstPassStable(s);
  }
}
