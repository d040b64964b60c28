/**
 The algorithm manager's reading of template names such as "ccm(ctr(aes),cbcmac(aes))", against
 the names that the templates print: which strings are accepted, and with which head and arguments.
 */
module Algboss {
  import opened Options

  const CRYPTO_MAX_ATTRS := 32
  const CRYPTO_MAX_ALG_NAME := 128
  const ENAMETOOLONG := 36

  /** isalnum(); any classification will do that keeps the punctuation of names and NUL out. */
  type Alnum = char -> bool

  predicate IsClass(alnum: Alnum) {
    !alnum('(') && !alnum(')') && !alnum(',') && !alnum('\0')
  }

  predicate NameChar(alnum: Alnum, c: char) { alnum(c) || c == '-' || c == '_' }

  predicate IsIdent(alnum: Alnum, w: string) {
    forall i :: 0 <= i < |w| ==> NameChar(alnum, w[i])
  }

  // ----- what a name is -----

  /** The depth of parentheses after w, unless it falls below the start. */
  function Depth(w: string, d: nat): Option<nat> {
    if |w| == 0 then Some(d)
    else if w[0] == '(' then Depth(w[1..], d + 1)
    else if w[0] == ')' then if d == 0 then None else Depth(w[1..], d - 1)
    else Depth(w[1..], d)
  }

  /** A parenthesis, balanced text and the parenthesis that closes it. */
  predicate IsGroup(g: string) {
    2 <= |g| && g[0] == '(' && g[|g| - 1] == ')' && Depth(g[1..|g| - 1], 0) == Some(0)
  }

  /** An argument with its first k characters as identifier: nothing follows them, or one group. */
  predicate ArgAt(alnum: Alnum, a: string, k: nat) {
    0 < |a| && k <= |a| && IsIdent(alnum, a[..k]) && (k == |a| || IsGroup(a[k..]))
  }

  ghost predicate IsArg(alnum: Alnum, a: string) {
    exists k :: 0 <= k <= |a| && ArgAt(alnum, a, k)
  }

  function Commas(args: seq<string>): string {
    if |args| == 0 then "" else if |args| == 1 then args[0] else args[0] + "," + Commas(args[1..])
  }

  /** "%s(%s)", or "%s(%s,%s)" and so on. */
  function PrintName(head: string, args: seq<string>): string {
    head + "(" + Commas(args) + ")"
  }

  ghost predicate WellFormed(alnum: Alnum, head: string, args: seq<string>) {
    && 0 < |head| && IsIdent(alnum, head) && 1 <= |args| < CRYPTO_MAX_ATTRS
    && forall i :: 0 <= i < |args| ==> IsArg(alnum, args[i])
  }

  /** A name that starts with head and arguments as printed; nothing looks at what follows. */
  ghost predicate Printed(alnum: Alnum, s: string, head: string, args: seq<string>) {
    WellFormed(alnum, head, args) && PrintName(head, args) <= s
  }

  // ----- the parser as a function -----

  /** The character at i; at the end there is the NUL, and nothing is read after it. */
  function At(s: string, i: nat): char
    requires i <= |s|
  {
    if i < |s| then s[i] else '\0'
  }

  function IdentEnd(alnum: Alnum, s: string, i: nat): (e: nat)
    requires IsClass(alnum) && i <= |s|
    ensures i <= e <= |s| && IsIdent(alnum, s[i..e]) && !NameChar(alnum, At(s, e))
    decreases |s| - i
  {
    if NameChar(alnum, At(s, i)) then
      var e := IdentEnd(alnum, s, i + 1);
      assert s[i..e] == [s[i]] + s[i + 1..e];
      e
    else i
  }

  /** Where the group closes that is open at depth d before position i. */
  function Close(s: string, i: nat, d: nat): (e: Option<nat>)
    requires i <= |s|
    ensures e.Some? ==> i <= e.value < |s| && s[e.value] == ')'
    decreases |s| - i
  {
    if i == |s| then None
    else if s[i] == '(' then Close(s, i + 1, d + 1)
    else if s[i] == ')' then if d == 0 then Some(i) else Close(s, i + 1, d - 1)
    else Close(s, i + 1, d)
  }

  function ArgEnd(alnum: Alnum, s: string, i: nat): (e: Option<nat>)
    requires IsClass(alnum) && i <= |s|
    ensures e.Some? ==> i <= e.value <= |s|
  {
    var j := IdentEnd(alnum, s, i);
    if At(s, j) == '(' then
      var c := Close(s, j + 1, 0);
      if c.Some? then Some(c.value + 1) else None
    else Some(j)
  }

  /** The arguments from i on, when n are already there. */
  function ArgsFrom(alnum: Alnum, s: string, i: nat, n: nat): (r: Option<seq<string>>)
    requires IsClass(alnum) && i <= |s|
    decreases |s| - i
  {
    var e := ArgEnd(alnum, s, i);
    if e.None? || e.value == i || n + 1 >= CRYPTO_MAX_ATTRS then None
    else if At(s, e.value) == ')' then Some([s[i..e.value]])
    else if At(s, e.value) == ',' then
      var rest := ArgsFrom(alnum, s, e.value + 1, n + 1);
      if rest.Some? then Some([s[i..e.value]] + rest.value) else None
    else None
  }

  datatype Parsed = Rejected | Parsed(head: string, args: seq<string>)

  function Parse(alnum: Alnum, s: string): (r: Parsed)
    requires IsClass(alnum)
  {
    var j := IdentEnd(alnum, s, 0);
    if j == 0 || At(s, j) != '(' then Rejected
    else
      var args := ArgsFrom(alnum, s, j + 1, 0);
      if args.Some? then Parsed(s[..j], args.value) else Rejected
  }

  // ----- whatever is accepted was printed -----

  lemma {:induction false} CloseMeaning(s: string, i: nat, d: nat)
    requires i <= |s|
    ensures var e := Close(s, i, d); e.Some? ==> Depth(s[i..e.value], d) == Some(0)
    decreases |s| - i
  {
    var e := Close(s, i, d);
    if e.Some? {
      if e.value == i {
        assert s[i..i] == "";
      } else {
        assert s[i..e.value] == [s[i]] + s[i + 1..e.value];
        CloseMeaning(s, i + 1, if s[i] == '(' then d + 1 else if s[i] == ')' then d - 1 else d);
      }
    }
  }

  lemma SliceOfSlice(s: string, i: nat, j: nat, k: nat, l: nat)
    requires i <= j <= |s| && k <= l <= j - i
    ensures s[i..j][k..l] == s[i + k..i + l]
  {
    var x, y := s[i..j][k..l], s[i + k..i + l];
    assert |x| == |y| && forall m | 0 <= m < |x| :: x[m] == y[m];
  }

  /** What lies between the parentheses of a group. */
  lemma Inside(s: string, i: nat, j: nat, k: nat)
    requires i + k + 2 <= j <= |s|
    ensures var g := s[i..j][k..]; g == s[i + k..j] && g[1..|g| - 1] == s[i + k + 1..j - 1] && g[0] == s[i + k] && g[|g| - 1] == s[j - 1]
  {
    SliceOfSlice(s, i, j, k, j - i);
    SliceOfSlice(s, i + k, j, 1, j - i - k - 1);
  }

  lemma ArgEndMeaning(alnum: Alnum, s: string, i: nat)
    requires IsClass(alnum) && i <= |s|
    ensures var e := ArgEnd(alnum, s, i); e.Some? && e.value != i ==> IsArg(alnum, s[i..e.value])
  {
    hide Close, Depth, IdentEnd;
    var j, e := IdentEnd(alnum, s, i), ArgEnd(alnum, s, i);
    if e.Some? && e.value != i {
      var a, k := s[i..e.value], j - i;
      SliceOfSlice(s, i, e.value, 0, k);
      if At(s, j) == '(' {
        CloseMeaning(s, j + 1, 0);
        Inside(s, i, e.value, k);
      }
      assert ArgAt(alnum, a, k);
    }
  }

  lemma CommasCons(a: string, rest: seq<string>)
    ensures Commas([a]) == a
    ensures |rest| != 0 ==> Commas([a] + rest) == a + "," + Commas(rest)
  {
    assert ([a] + rest)[1..] == rest;
  }

  lemma {:induction false} ArgsMeaning(alnum: Alnum, s: string, i: nat, n: nat)
    requires IsClass(alnum) && i <= |s|
    ensures var r := ArgsFrom(alnum, s, i, n);
            r.Some? ==>
              && 1 <= |r.value| && n + |r.value| < CRYPTO_MAX_ATTRS
              && (forall k :: 0 <= k < |r.value| ==> IsArg(alnum, r.value[k]))
              && Commas(r.value) + ")" <= s[i..]
    decreases |s| - i
  {
    hide ArgEnd, IsArg, Commas;
    var r, e := ArgsFrom(alnum, s, i, n), ArgEnd(alnum, s, i);
    if r.Some? {
      var a, t := s[i..e.value], s[e.value..];
      ArgEndMeaning(alnum, s, i);
      assert s[i..] == a + t;
      if At(s, e.value) == ')' {
        CommasCons(a, []);
        assert t == ")" + t[1..];
      } else {
        var rest := ArgsFrom(alnum, s, e.value + 1, n + 1).value;
        ArgsMeaning(alnum, s, e.value + 1, n + 1);
        CommasCons(a, rest);
        assert t == "," + s[e.value + 1..];
        PrefixAfter(a + ",", Commas(rest) + ")", s[e.value + 1..]);
        assert a + "," + (Commas(rest) + ")") == a + "," + Commas(rest) + ")";
        assert a + "," + s[e.value + 1..] == a + t;
      }
    }
  }

  lemma PrefixAfter(p: string, x: string, y: string)
    requires x <= y
    ensures p + x <= p + y
  {
  }

  lemma AcceptedIsPrinted(alnum: Alnum, s: string)
    requires IsClass(alnum)
    ensures var r := Parse(alnum, s); r.Parsed? ==> Printed(alnum, s, r.head, r.args)
  {
    hide ArgsFrom, IsArg, Commas;
    var r, j := Parse(alnum, s), IdentEnd(alnum, s, 0);
    if r.Parsed? {
      ArgsMeaning(alnum, s, j + 1, 0);
      assert s[0..j] == r.head;
      PrefixAfter(r.head + "(", Commas(r.args) + ")", s[j + 1..]);
      assert r.head + "(" + s[j + 1..] == s;
      assert r.head + "(" + (Commas(r.args) + ")") == PrintName(r.head, r.args);
    }
  }

  // ----- whatever was printed is accepted, with its head and arguments -----

  /** An identifier at i ends where its characters end. */
  lemma {:induction false} IdentEndOf(alnum: Alnum, s: string, i: nat, j: nat)
    requires IsClass(alnum) && i <= j <= |s| && IsIdent(alnum, s[i..j]) && !NameChar(alnum, At(s, j))
    ensures IdentEnd(alnum, s, i) == j
    decreases j - i
  {
    if i < j {
      assert s[i..j][0] == s[i];
      assert s[i + 1..j] == s[i..j][1..];
      IdentEndOf(alnum, s, i + 1, j);
    }
  }

  /** Balanced text is passed over. */
  lemma {:induction false} CloseAfter(s: string, i: nat, j: nat, d: nat)
    requires i <= j <= |s| && Depth(s[i..j], d).Some?
    ensures Close(s, i, d) == Close(s, j, Depth(s[i..j], d).value)
    decreases j - i
  {
    if i < j {
      assert s[i..j][0] == s[i] && s[i..j][1..] == s[i + 1..j];
      CloseAfter(s, i + 1, j, if s[i] == '(' then d + 1 else if s[i] == ')' then d - 1 else d);
    } else {
      assert s[i..j] == "";
    }
  }

  lemma ArgEndIs(alnum: Alnum, s: string, i: nat, j: nat, c: nat)
    requires IsClass(alnum) && i <= j <= |s| && IdentEnd(alnum, s, i) == j
    ensures At(s, j) != '(' ==> ArgEnd(alnum, s, i) == Some(j)
    ensures At(s, j) == '(' && Close(s, j + 1, 0) == Some(c) ==> ArgEnd(alnum, s, i) == Some(c + 1)
  {
    hide Close, IdentEnd, NameChar;
  }

  lemma ArgEndOf(alnum: Alnum, s: string, i: nat, a: string)
    requires IsClass(alnum) && i + |a| < |s| && s[i..i + |a|] == a && IsArg(alnum, a)
    requires s[i + |a|] == ',' || s[i + |a|] == ')'
    ensures ArgEnd(alnum, s, i) == Some(i + |a|)
  {
    hide Close, IdentEnd, Depth, ArgEnd;
    var k :| 0 <= k <= |a| && ArgAt(alnum, a, k);
    SliceOfSlice(s, i, i + |a|, 0, k);
    if k < |a| {
      Inside(s, i, i + |a|, k);
      IdentEndOf(alnum, s, i, i + k);
      var e := i + |a| - 1;
      CloseAfter(s, i + k + 1, e, 0);
      CloseHere(s, e);
      ArgEndIs(alnum, s, i, i + k, e);
    } else {
      IdentEndOf(alnum, s, i, i + k);
      ArgEndIs(alnum, s, i, i + k, 0);
    }
  }

  lemma CloseHere(s: string, e: nat)
    requires e < |s| && s[e] == ')'
    ensures Close(s, e, 0) == Some(e)
  {
  }

  lemma {:induction false} ArgsOf(alnum: Alnum, s: string, i: nat, n: nat, args: seq<string>)
    requires IsClass(alnum) && i <= |s| && 1 <= |args| && n + |args| < CRYPTO_MAX_ATTRS
    requires (forall k :: 0 <= k < |args| ==> IsArg(alnum, args[k])) && Commas(args) + ")" <= s[i..]
    ensures ArgsFrom(alnum, s, i, n) == Some(args)
    decreases |args|
  {
    hide ArgEnd, IsArg, Commas;
    var a, rest := args[0], args[1..];
    assert args == [a] + rest;
    CommasCons(a, rest);
    NotEmpty(alnum, a);
    if |rest| == 0 {
      assert args == [a] && a + ")" + "" == Commas(args) + ")";
      ArgHere(s, i, a, ")", "");
      ArgEndOf(alnum, s, i, a);
    } else {
      assert Commas(args) + ")" == a + "," + (Commas(rest) + ")");
      ArgHere(s, i, a, ",", Commas(rest) + ")");
      ArgEndOf(alnum, s, i, a);
      ArgsOf(alnum, s, i + |a| + 1, n + 1, rest);
    }
  }

  lemma NotEmpty(alnum: Alnum, a: string)
    requires IsArg(alnum, a)
    ensures 0 < |a|
  {
  }

  /** Cutting what is printed from i on. */
  lemma ArgHere(s: string, i: nat, a: string, sep: string, t: string)
    requires i <= |s| && |sep| == 1 && a + sep + t <= s[i..]
    ensures i + |a| < |s| && s[i..i + |a|] == a && s[i + |a|] == sep[0] && t <= s[i + |a| + 1..]
  {
    var x := a + sep + t;
    assert x == s[i..][..|x|];
    assert x[..|a|] == a && x[|a|] == sep[0] && x[|a| + 1..] == t;
    assert s[i..][..|a|] == s[i..i + |a|];
    assert s[i + |a| + 1..][..|t|] == s[i..][|a| + 1..|x|];
  }

  lemma PrintedIsAccepted(alnum: Alnum, s: string, head: string, args: seq<string>)
    requires IsClass(alnum) && Printed(alnum, s, head, args)
    ensures Parse(alnum, s) == Parsed(head, args)
  {
    hide ArgsFrom, IsArg, Commas, IdentEnd;
    var j := |head|;
    assert PrintName(head, args) == head + "(" + (Commas(args) + ")");
    assert s[0..] == s;
    ArgHere(s, 0, head, "(", Commas(args) + ")");
    IdentEndOf(alnum, s, 0, j);
    ArgsOf(alnum, s, j + 1, 0, args);
    assert s[0..j] == s[..j];
  }

  /** The parser accepts exactly the names that start with a printed one, and finds the head and the arguments it was printed from. */
  lemma ParseUndoesPrint(alnum: Alnum, s: string, head: string, args: seq<string>)
    requires IsClass(alnum)
    ensures Parse(alnum, s) == Parsed(head, args) <==> Printed(alnum, s, head, args)
  {
    hide Parse, Printed;
    AcceptedIsPrinted(alnum, s);
    if Printed(alnum, s, head, args) {
      PrintedIsAccepted(alnum, s, head, args);
    }
  }

  // ----- nested templates -----

  /** An algorithm name: a plain one, or a template applied to others. */
  datatype Term = Plain(name: string) | Template(head: string, args: seq<Term>)

  predicate IsTerm(alnum: Alnum, t: Term) {
    match t
    case Plain(name) => 0 < |name| && IsIdent(alnum, name)
    case Template(head, args) =>
      0 < |head| && IsIdent(alnum, head) && 1 <= |args| < CRYPTO_MAX_ATTRS && forall i :: 0 <= i < |args| ==> IsTerm(alnum, args[i])
  }

  function Print(t: Term): string {
    match t
    case Plain(name) => name
    case Template(head, args) => PrintName(head, PrintAll(args))
  }

  function PrintAll(ts: seq<Term>): (r: seq<string>)
    ensures |r| == |ts| && forall i :: 0 <= i < |ts| ==> r[i] == Print(ts[i])
  {
    if |ts| == 0 then [] else [Print(ts[0])] + PrintAll(ts[1..])
  }

  lemma {:induction false} DepthConcat(x: string, y: string, d: nat)
    requires Depth(x, d).Some?
    ensures Depth(x + y, d) == Depth(y, Depth(x, d).value)
    decreases |x|
  {
    if |x| == 0 {
      assert x + y == y;
    } else {
      assert (x + y)[0] == x[0] && (x + y)[1..] == x[1..] + y;
      DepthConcat(x[1..], y, if x[0] == '(' then d + 1 else if x[0] == ')' then d - 1 else d);
    }
  }

  lemma {:induction false} IdentDepth(alnum: Alnum, w: string, d: nat)
    requires IsClass(alnum) && IsIdent(alnum, w)
    ensures Depth(w, d) == Some(d)
    decreases |w|
  {
    if |w| != 0 {
      assert NameChar(alnum, w[0]);
      forall i | 0 <= i < |w| - 1 ensures NameChar(alnum, w[1..][i]) {
        assert w[1..][i] == w[i + 1];
      }
      IdentDepth(alnum, w[1..], d);
    }
  }

  lemma OneDepth(d: nat)
    ensures Depth("(", d) == Some(d + 1) && Depth(",", d) == Some(d) && (0 < d ==> Depth(")", d) == Some(d - 1))
  {
    assert "("[1..] == "" && ","[1..] == "" && ")"[1..] == "";
  }

  lemma {:induction false} CommasDepth(args: seq<string>, d: nat)
    requires forall i :: 0 <= i < |args| ==> Depth(args[i], d) == Some(d)
    ensures Depth(Commas(args), d) == Some(d)
    decreases |args|
  {
    if |args| > 1 {
      CommasDepth(args[1..], d);
      OneDepth(d);
      DepthConcat(args[0], ",", d);
      DepthConcat(args[0] + ",", Commas(args[1..]), d);
    }
  }

  /** A printed name leaves the depth as it was. */
  lemma {:induction false} PrintDepth(alnum: Alnum, t: Term, d: nat)
    requires IsClass(alnum) && IsTerm(alnum, t)
    ensures Depth(Print(t), d) == Some(d)
    decreases t
  {
    match t
    case Plain(name) => IdentDepth(alnum, name, d);
    case Template(head, args) =>
      var w := PrintAll(args);
      forall i | 0 <= i < |args| ensures Depth(w[i], d + 1) == Some(d + 1) {
        PrintDepth(alnum, args[i], d + 1);
      }
      CommasDepth(w, d + 1);
      NameDepth(alnum, head, w, d);
  }

  lemma NameDepth(alnum: Alnum, head: string, args: seq<string>, d: nat)
    requires IsClass(alnum) && IsIdent(alnum, head) && Depth(Commas(args), d + 1) == Some(d + 1)
    ensures Depth(PrintName(head, args), d) == Some(d)
  {
    hide Depth, Commas;
    IdentDepth(alnum, head, d);
    OneDepth(d);
    OneDepth(d + 1);
    DepthConcat(head, "(", d);
    DepthConcat(head + "(", Commas(args), d);
    DepthConcat(head + "(" + Commas(args), ")", d);
  }

  /** A printed name is an argument. */
  lemma PrintIsArg(alnum: Alnum, t: Term)
    requires IsClass(alnum) && IsTerm(alnum, t)
    ensures IsArg(alnum, Print(t))
  {
    hide Depth, Commas;
    match t
    case Plain(name) =>
      assert name[..|name|] == name;
      assert ArgAt(alnum, name, |name|);
    case Template(head, args) =>
      var a, k, w := Print(t), |head|, Commas(PrintAll(args));
      assert a[..k] == head;
      var g := a[k..];
      assert g == "(" + w + ")";
      assert g[1..|g| - 1] == w;
      forall i | 0 <= i < |args| ensures Depth(PrintAll(args)[i], 0) == Some(0) {
        PrintDepth(alnum, args[i], 0);
      }
      CommasDepth(PrintAll(args), 0);
      assert ArgAt(alnum, a, k);
  }

  /** Of a nested template name, the manager recovers the head and exactly the printed top-level arguments. */
  lemma TermRoundTrip(alnum: Alnum, head: string, args: seq<Term>)
    requires IsClass(alnum) && IsTerm(alnum, Template(head, args))
    ensures Parse(alnum, Print(Template(head, args))) == Parsed(head, PrintAll(args))
  {
    hide Parse, Commas, IsArg;
    forall i | 0 <= i < |args| ensures IsArg(alnum, PrintAll(args)[i]) {
      PrintIsArg(alnum, args[i]);
    }
    ParseUndoesPrint(alnum, Print(Template(head, args)), head, PrintAll(args));
  }

  /** snprintf into a name array: what fits with the NUL behind it. */
  function Fitting(s: string): string {
    if |s| < CRYPTO_MAX_ALG_NAME then s else s[..CRYPTO_MAX_ALG_NAME - 1]
  }

  /** The array holds the string, or as much of it as there is room for in front of the NUL. */
  predicate Holds(a: string, s: string) {
    a <= s && |a| < CRYPTO_MAX_ALG_NAME && (a == s || |a| == CRYPTO_MAX_ALG_NAME - 1)
  }

  class CryptoInstance {
    var craName: string
    var craDriverName: string

    /**
     crypto_inst_setname.  It succeeds exactly if both names fit, NUL included; then the manager
     reads each of them back as the template and the algorithm, exactly if these are well-formed.
     */
    method CryptoInstSetname(name: string, algName: string, algDriverName: string, ghost alnum: Alnum) returns (err: int)
      requires IsClass(alnum)
      modifies this
      ensures err == 0 || err == -ENAMETOOLONG
      ensures err == 0 <==> |PrintName(name, [algName])| < CRYPTO_MAX_ALG_NAME && |PrintName(name, [algDriverName])| < CRYPTO_MAX_ALG_NAME
      ensures Holds(craName, PrintName(name, [algName]))
      ensures if |PrintName(name, [algName])| < CRYPTO_MAX_ALG_NAME then Holds(craDriverName, PrintName(name, [algDriverName]))
              else craDriverName == old(craDriverName)
      ensures err == 0 ==> (Parse(alnum, craName) == Parsed(name, [algName]) <==> WellFormed(alnum, name, [algName]))
      ensures err == 0 ==> (Parse(alnum, craDriverName) == Parsed(name, [algDriverName]) <==> WellFormed(alnum, name, [algDriverName]))
    {
      hide Parse, WellFormed;
      assert Commas([algName]) == algName && Commas([algDriverName]) == algDriverName;
      var full := name + "(" + algName + ")";
      craName := Fitting(full);
      if |full| >= CRYPTO_MAX_ALG_NAME {
        return -ENAMETOOLONG;
      }
      ParseUndoesPrint(alnum, craName, name, [algName]);
      full := name + "(" + algDriverName + ")";
      craDriverName := Fitting(full);
      if |full| >= CRYPTO_MAX_ALG_NAME {
        return -ENAMETOOLONG;
      }
      ParseUndoesPrint(alnum, craDriverName, name, [algDriverName]);
      err := 0;
    }
  }

  // ----- the parser as it runs -----

  /** The loops that pass over an identifier. */
  method SkipIdent(alnum: Alnum, s: string, start: nat) returns (p: nat)
    requires IsClass(alnum) && start <= |s|
    ensures p == IdentEnd(alnum, s, start)
  {
    p := start;
    while NameChar(alnum, At(s, p))
      invariant start <= p <= |s| && IdentEnd(alnum, s, p) == IdentEnd(alnum, s, start)
      decreases |s| - p
    {
      p := p + 1;
    }
  }

  /** The loop that looks for the closing parenthesis, from the opening one at `open`. */
  method SkipGroup(s: string, open: nat) returns (found: bool, p: nat)
    requires open < |s|
    ensures Close(s, open + 1, 0) == if found then Some(p) else None
  {
    p := open;
    var recursion: nat := 0;
    while true
      invariant open <= p < |s| && Close(s, p + 1, recursion) == Close(s, open + 1, 0)
      decreases |s| - p
    {
      p := p + 1;
      if p == |s| {
        return false, p;
      }
      if s[p] == '(' {
        recursion := recursion + 1;
      } else if s[p] == ')' {
        if recursion == 0 {
          return true, p;
        }
        recursion := recursion - 1;
      }
    }
  }

  /** One argument: an identifier and, if a parenthesis follows, the group it opens. */
  method SkipArg(alnum: Alnum, s: string, name: nat) returns (found: bool, p: nat)
    requires IsClass(alnum) && name <= |s|
    ensures ArgEnd(alnum, s, name) == if found then Some(p) else None
  {
    hide IdentEnd, Close;
    p := SkipIdent(alnum, s, name);
    found := true;
    if At(s, p) == '(' {
      found, p := SkipGroup(s, p);
      p := p + 1;
    }
  }

  /**
   The parser in cryptomgr_schedule_probe.  The name is what stands before the NUL of cra_name;
   attrs is the array of the arguments, of which n are filled in.
   */
  method ParseName(alnum: Alnum, s: string, attrs: array<string>) returns (ok: bool, template: string, n: nat)
    requires IsClass(alnum) && |s| < CRYPTO_MAX_ALG_NAME && attrs.Length == CRYPTO_MAX_ATTRS
    modifies attrs
    ensures n <= CRYPTO_MAX_ATTRS
    ensures Parse(alnum, s) == if ok then Parsed(template, attrs[..n]) else Rejected
    ensures |template| < CRYPTO_MAX_ALG_NAME && forall i :: 0 <= i < n ==> |attrs[i]| < CRYPTO_MAX_ALG_NAME
  {
    hide IdentEnd, ArgEnd;
    ok, template, n := false, "", 0;
    var p := SkipIdent(alnum, s, 0);
    if p == 0 || At(s, p) != '(' {
      return;
    }
    template := s[..p];
    ghost var all := ArgsFrom(alnum, s, p + 1, 0);
    PrependedNone(all);
    assert attrs[..0] == [];
    while true
      invariant p < |s| && n < CRYPTO_MAX_ATTRS
      invariant all == Prepended(attrs[..n], ArgsFrom(alnum, s, p + 1, n))
      invariant forall i :: 0 <= i < n ==> |attrs[i]| < CRYPTO_MAX_ALG_NAME
      decreases |s| - p
    {
      p := p + 1;
      var name := p;
      ghost var before, rest := attrs[..n], ArgsFrom(alnum, s, name, n);
      var found;
      found, p := SkipArg(alnum, s, p);
      if !found {
        return;
      }
      if p == name {
        return;
      }
      attrs[n] := s[name..p];
      n := n + 1;
      assert attrs[..n] == before + [s[name..p]];
      if n >= CRYPTO_MAX_ATTRS {
        return;
      }
      if At(s, p) == ')' {
        assert rest == Some([s[name..p]]);
        ok := true;
        return;
      }
      if At(s, p) != ',' {
        return;
      }
      PrependedSnoc(before, s[name..p], ArgsFrom(alnum, s, p + 1, n));
    }
  }

  function Prepended(a: seq<string>, r: Option<seq<string>>): Option<seq<string>> {
    if r.Some? then Some(a + r.value) else None
  }

  lemma PrependedNone(r: Option<seq<string>>)
    ensures Prepended([], r) == r
  {
    if r.Some? {
      assert [] + r.value == r.value;
    }
  }

  lemma PrependedSnoc(a: seq<string>, x: string, r: Option<seq<string>>)
    ensures Prepended(a, Prepended([x], r)) == Prepended(a + [x], r)
  {
    if r.Some? {
      assert a + ([x] + r.value) == a + [x] + r.value;
    }
  }
}
