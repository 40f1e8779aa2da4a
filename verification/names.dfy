/**
 * Canonical names of clauses (`canonicalName`): the clause name with each `@` placeholder
 * filled by `(value)` when the argument in that position is a value, and left as `@`
 * otherwise. Rules, conditions and the dependency graph are keyed by these names.
 */
module Names {
  import opened Literals
  import opened Terms

  /** What a placeholder becomes: a value's printed form in parentheses, `@` otherwise. */
  function Slot(t: Term): string {
    if t.Val? then "(" + Render(t.lit) + ")" else "@"
  }

  /** The slots of a clause's arguments, in order. */
  function Slots(args: seq<Term>): seq<string> {
    seq(|args|, i requires 0 <= i < |args| => Slot(args[i]))
  }

  /** Fill the `@` placeholders of `name`, left to right, with `slots`. */
  function Fill(name: string, slots: seq<string>): string
    decreases |name|
  {
    if name == [] then []
    else if name[0] == '@' && slots != [] then slots[0] + Fill(name[1..], slots[1..])
    else [name[0]] + Fill(name[1..], slots)
  }

  function CanonicalName(c: Clause): string {
    Fill(c.name, Slots(c.args))
  }

  function RuleName(r: Rule): string {
    CanonicalName(r.head)
  }

  /** `Not.canonicalName` is the name of the negated clause. */
  function ConditionName(c: Condition): string {
    CanonicalName(c.clause)
  }

  /** A name without placeholders is its own canonical name. */
  lemma {:induction false} FillNoPlaceholder(name: string, slots: seq<string>)
    requires '@' !in name
    ensures Fill(name, slots) == name
    decreases |name|
  {
    if name != [] {
      FillNoPlaceholder(name[1..], slots);
    }
  }

  /** The first placeholder receives the first slot, and the rest of the name the others. */
  lemma {:induction false} FillsInOrder(p: string, rest: string, s: string, more: seq<string>)
    requires '@' !in p
    ensures Fill(p + "@" + rest, [s] + more) == p + s + Fill(rest, more)
    decreases |p|
  {
    if p == [] {
      assert p + "@" + rest == "@" + rest;
      FillAt(rest, s, more);
    } else {
      var q, slots := p[1..], [s] + more;
      var c, f := [p[0]], Fill(rest, more);
      assert p == c + q;
      assert '@' !in q by {
        assert forall i | 0 <= i < |q| :: q[i] == p[i + 1];
      }
      Assoc3(c, q, "@", rest);
      FillPlain(p[0], q + "@" + rest, slots);
      FillsInOrder(q, rest, s, more);
      Assoc4(c, q, s, f);
    }
  }

  /** Regrouping a concatenation of four strings. */
  lemma Assoc3(a: string, b: string, c: string, d: string)
    ensures a + b + c + d == a + (b + c + d)
  {
  }

  /** The same regrouping, read the other way. */
  lemma Assoc4(a: string, b: string, c: string, d: string)
    ensures a + (b + c + d) == a + b + c + d
  {
  }

  /** A placeholder at the front takes the first slot. */
  lemma FillAt(rest: string, s: string, more: seq<string>)
    ensures Fill("@" + rest, [s] + more) == s + Fill(rest, more)
  {
    var n, slots := "@" + rest, [s] + more;
    assert n[0] == '@' && n[1..] == rest;
    assert slots[0] == s && slots[1..] == more;
  }

  /** Any other character at the front is copied. */
  lemma FillPlain(c: char, t: string, slots: seq<string>)
    requires c != '@'
    ensures Fill([c] + t, slots) == [c] + Fill(t, slots)
  {
    var n := [c] + t;
    assert n[0] == c && n[1..] == t;
  }

  /**
   * The first placeholder of a clause's name receives the first argument's slot, and the
   * rest of the name is named as a clause of the remaining arguments.
   */
  lemma CanonicalNameFillsInOrder(p: string, rest: string, a: Term, more: seq<Term>)
    requires '@' !in p
    ensures CanonicalName(Clause(p + "@" + rest, [a] + more))
         == p + Slot(a) + CanonicalName(Clause(rest, more))
  {
    assert Slots([a] + more) == [Slot(a)] + Slots(more);
    FillsInOrder(p, rest, Slot(a), Slots(more));
  }

  /** The canonical name depends only on which arguments are values, and on how they print. */
  lemma FillSameSlots(name: string, xs: seq<Term>, ys: seq<Term>)
    requires |xs| == |ys|
    requires forall i | 0 <= i < |xs| :: Slot(xs[i]) == Slot(ys[i])
    ensures CanonicalName(Clause(name, xs)) == CanonicalName(Clause(name, ys))
  {
    assert Slots(xs) == Slots(ys);
  }

  /** Placeholders filled with `@` stay as they were. */
  lemma {:induction false} FillWithAts(name: string, slots: seq<string>)
    requires forall i | 0 <= i < |slots| :: slots[i] == "@"
    ensures Fill(name, slots) == name
    decreases |name|
  {
    if name != [] {
      if name[0] == '@' && slots != [] {
        FillWithAts(name[1..], slots[1..]);
        assert name == "@" + name[1..];
      } else {
        FillWithAts(name[1..], slots);
        assert name == [name[0]] + name[1..];
      }
    }
  }

  /** A clause with no value arguments has its plain name as canonical name. */
  lemma CanonicalNameWithoutValues(name: string, args: seq<Term>)
    requires forall i | 0 <= i < |args| :: !args[i].Val?
    ensures CanonicalName(Clause(name, args)) == name
  {
    FillWithAts(name, Slots(args));
  }

  /** A clause without arguments is named by its plain name. */
  lemma NoArgsName(name: string)
    ensures CanonicalName(Clause(name, [])) == name
  {
    assert Slots([]) == [];
    FillNoArgs(name);
  }

  /**
   * Two values, each a string or a number, in the same single placeholder give different
   * names unless they are equal.
   */
  lemma CanonicalNameSeparatesScalars(p: string, rest: string, a: Literal, b: Literal)
    requires '@' !in p && '@' !in rest && Scalar(a) && Scalar(b)
    ensures (CanonicalName(Clause(p + "@" + rest, [Val(a)]))
          == CanonicalName(Clause(p + "@" + rest, [Val(b)]))) <==> a == b
  {
    var none: seq<string> := [];
    var sa, sb := Slot(Val(a)), Slot(Val(b));
    assert Slots([Val(a)]) == [sa] + none;
    assert Slots([Val(b)]) == [sb] + none;
    FillsInOrder(p, rest, sa, none);
    FillsInOrder(p, rest, sb, none);
    FillNoPlaceholder(rest, none);
    if p + sa + rest == p + sb + rest {
      assert |sa| == |sb|;
      assert sa == (p + sa + rest)[|p|..|p| + |sa|];
      assert sb == (p + sb + rest)[|p|..|p| + |sb|];
      assert Render(a) == sa[1..|sa| - 1];
      assert Render(b) == sb[1..|sb| - 1];
      RenderScalarsInjective(a, b);
    }
  }

  /**
   * An array prints as its elements joined by commas, so a one-element array and that
   * element name a clause alike: `p@` with `["a"]` and with `"a"` are both `p(a)`.
   */
  lemma ListNamedLikeString()
    ensures CanonicalName(Clause("p@", [Val(List([Str("a")]))])) == CanonicalName(Clause("p@", [Val(Str("a"))]))
  {
    var xs := [Str("a")];
    assert seq(|xs|, i requires 0 <= i < |xs| => ElemString(xs[i])) == ["a"];
    assert Render(List(xs)) == "a" == Render(Str("a"));
    FillSameSlots("p@", [Val(List(xs))], [Val(Str("a"))]);
  }

  /**
   * Quotes inside a string are printed as they are, so two string arguments can name a
   * clause like two others: with `a`, `b` and `c` quoted when printed, `p@@` with
   * `a")("b` and `c` and with `a` and `b")("c` are both `p("a")("b")("c")`.
   */
  lemma QuotedStringsClash(a: string, b: string, c: string)
    requires !Plain(a) && !Plain(c)
    ensures CanonicalName(Clause("p@@", [Val(Str(a + "\")(\"" + b)), Val(Str(c))]))
         == CanonicalName(Clause("p@@", [Val(Str(a)), Val(Str(b + "\")(\"" + c))]))
  {
    var sep := "\")(\"";
    QuoteInside(a, b);
    QuoteInside(b, c);
    TwoPlaceholders(Val(Str(a + sep + b)), Val(Str(c)));
    TwoPlaceholders(Val(Str(a)), Val(Str(b + sep + c)));
    QuotedSlot(a + sep + b);
    QuotedSlot(c);
    QuotedSlot(a);
    QuotedSlot(b + sep + c);
    assert sep == "\")" + "(\"";
    Regroup("(\"", a, sep, b, c, "\")");
  }

  /** With `q` the closing `e` then the opening `o`, two groupings of three quoted parts agree. */
  lemma Regroup(o: string, a: string, q: string, b: string, c: string, e: string)
    requires q == e + o
    ensures "p" + (o + (a + q + b) + e) + (o + c + e) == "p" + (o + a + e) + (o + (b + q + c) + e)
  {
    calc {
      "p" + (o + (a + q + b) + e) + (o + c + e);
      "p" + o + a + e + o + b + e + o + c + e;
      "p" + (o + a + e) + (o + (b + q + c) + e);
    }
  }

  /** A string that is not printed plain fills its placeholder quoted. */
  lemma QuotedSlot(s: string)
    requires !Plain(s)
    ensures Slot(Val(Str(s))) == "(\"" + s + "\")"
  {
    assert "(" + ("\"" + s + "\"") + ")" == "(\"" + s + "\")";
  }

  /** A string with a quote after its first part is printed quoted. */
  lemma QuoteInside(a: string, b: string)
    ensures !Plain(a + "\")(\"" + b)
  {
    var s := a + "\")(\"" + b;
    assert s[|a|] == '"';
  }

  // ---------------------------------------------------------------------------
  // `canonicalName` as written
  // ---------------------------------------------------------------------------

  /** What the engine substitutes for one argument: `(value)`, or `*` for a non-value. */
  function ArgInfo(t: Term): string {
    if t.Val? then "(" + Render(t.lit) + ")" else "*"
  }

  /** A string replace with a plain pattern: only the first `@` of `s`, if there is one, becomes `rep`. */
  function ReplaceFirst(s: string, rep: string): string
    decreases |s|
  {
    if s == [] then []
    else if s[0] == '@' then rep + s[1..]
    else [s[0]] + ReplaceFirst(s[1..], rep)
  }

  /** One `replace` per argument, each applied to the text produced so far. */
  function Substitute(s: string, args: seq<Term>): string
    decreases |args|
  {
    if args == [] then s else Substitute(ReplaceFirst(s, ArgInfo(args[0])), args[1..])
  }

  /** A global replace: every `*` in `s` becomes `@`. */
  function StarsToAts(s: string): string
    decreases |s|
  {
    if s == [] then [] else [if s[0] == '*' then '@' else s[0]] + StarsToAts(s[1..])
  }

  function CanonicalNameAsWritten(c: Clause): string {
    StarsToAts(Substitute(c.name, c.args))
  }

  /**
   * Substituting into the text produced so far lets a later argument land inside an earlier
   * value: `p@@("a@b", 1)` is named `p("a(1)b")@`, the same as `p@@("a(1)b", X)`, where the
   * intended names `p("a@b")(1)` and `p("a(1)b")@` differ.
   */
  lemma AsWrittenSplicesIntoValue()
    ensures CanonicalNameAsWritten(Clause("p@@", [Val(Str("a@b")), Val(Num(1))])) == "p(\"a(1)b\")@"
    ensures CanonicalNameAsWritten(Clause("p@@", [Val(Str("a(1)b")), Var("X")])) == "p(\"a(1)b\")@"
    ensures CanonicalName(Clause("p@@", [Val(Str("a@b")), Val(Num(1))])) == "p(\"a@b\")(1)"
    ensures CanonicalName(Clause("p@@", [Val(Str("a(1)b")), Var("X")])) == "p(\"a(1)b\")@"
  {
    SplicedName();
    ClashingName();
    IntendedNames();
  }

  lemma SplicedName()
    ensures CanonicalNameAsWritten(Clause("p@@", [Val(Str("a@b")), Val(Num(1))])) == "p(\"a(1)b\")@"
  {
    var v1, one := Val(Str("a@b")), Val(Num(1));
    assert ArgInfo(v1) == "(\"a@b\")" by {
      assert !Plain("a@b") by {
        assert "a@b"[1] == '@';
      }
    }
    var n1 := ReplaceFirst("p@@", ArgInfo(v1));
    assert n1 == "p(\"a" + "@" + "b\")@" by {
      ReplaceFirstAt("p", "@", ArgInfo(v1));
      assert "p" + "@" + "@" == "p@@";
    }
    var n2 := ReplaceFirst(n1, ArgInfo(one));
    assert n2 == "p(\"a(1)b\")@" by {
      assert ArgInfo(one) == "(1)";
      ReplaceFirstAt("p(\"a", "b\")@", "(1)");
    }
    assert StarsToAts(n2) == n2 by {
      StarsToAtsNoStar("p(\"a(1)b\")@");
    }
    SubstituteTwo("p@@", v1, one);
  }

  lemma ClashingName()
    ensures CanonicalNameAsWritten(Clause("p@@", [Val(Str("a(1)b")), Var("X")])) == "p(\"a(1)b\")@"
  {
    var v2, x := Val(Str("a(1)b")), Var("X");
    SubstituteTwo("p@@", v2, x);
    assert ArgInfo(v2) == "(\"a(1)b\")" by {
      assert !Plain("a(1)b") by {
        assert "a(1)b"[1] == '(';
      }
    }
    ClashFirst();
    ClashSecond();
    ClashStars();
  }

  /** The first replacement puts the quoted value in the first placeholder. */
  lemma ClashFirst()
    ensures ReplaceFirst("p@@", "(\"a(1)b\")") == "p(\"a(1)b\")@"
  {
    ReplaceFirstAt("p", "@", "(\"a(1)b\")");
    assert "p" + "@" + "@" == "p@@";
  }

  /** The second replacement puts `*` in the remaining placeholder. */
  lemma ClashSecond()
    ensures ReplaceFirst("p(\"a(1)b\")@", "*") == "p(\"a(1)b\")*"
  {
    ReplaceFirstAt("p(\"a(1)b\")", "", "*");
    assert "p(\"a(1)b\")" + "@" + "" == "p(\"a(1)b\")@";
  }

  /** The final pass turns the `*` back into `@`. */
  lemma ClashStars()
    ensures StarsToAts("p(\"a(1)b\")*") == "p(\"a(1)b\")@"
  {
    StarAtEnd("p(\"a(1)b\")");
    assert "p(\"a(1)b\")" + "*" == "p(\"a(1)b\")*";
    assert "p(\"a(1)b\")" + "@" == "p(\"a(1)b\")@";
  }

  /** A trailing `*` after text without stars turns into `@`, and nothing else changes. */
  lemma StarAtEnd(u: string)
    requires '*' !in u
    ensures StarsToAts(u + "*") == u + "@"
  {
    StarsToAtsAppend(u, "*");
    StarsToAtsNoStar(u);
    assert StarsToAts("*") == "@";
  }

  lemma IntendedNames()
    ensures CanonicalName(Clause("p@@", [Val(Str("a@b")), Val(Num(1))])) == "p(\"a@b\")(1)"
    ensures CanonicalName(Clause("p@@", [Val(Str("a(1)b")), Var("X")])) == "p(\"a(1)b\")@"
  {
    IntendedSplicedName();
    IntendedClashingName();
  }

  lemma IntendedSplicedName()
    ensures CanonicalName(Clause("p@@", [Val(Str("a@b")), Val(Num(1))])) == "p(\"a@b\")(1)"
  {
    var v1, one := Val(Str("a@b")), Val(Num(1));
    assert Slot(v1) == "(\"a@b\")" by {
      assert !Plain("a@b") by {
        assert "a@b"[1] == '@';
      }
    }
    assert Slot(one) == "(1)";
    TwoPlaceholders(v1, one);
  }

  lemma IntendedClashingName()
    ensures CanonicalName(Clause("p@@", [Val(Str("a(1)b")), Var("X")])) == "p(\"a(1)b\")@"
  {
    var v2, x := Val(Str("a(1)b")), Var("X");
    assert Slot(v2) == "(\"a(1)b\")" by {
      assert !Plain("a(1)b") by {
        assert "a(1)b"[1] == '(';
      }
    }
    TwoPlaceholders(v2, x);
  }

  /** The name `p@@` fills its two placeholders with the two arguments' slots. */
  lemma TwoPlaceholders(a: Term, b: Term)
    ensures CanonicalName(Clause("p@@", [a, b])) == "p" + Slot(a) + Slot(b)
  {
    assert "p" + "@" + "@" == "p@@";
    assert [a] + [b] == [a, b];
    CanonicalNameFillsInOrder("p", "@", a, [b]);
    FillOne(b);
  }

  lemma FillOne(a: Term)
    ensures CanonicalName(Clause("@", [a])) == Slot(a)
  {
    assert Slots([a]) == [Slot(a)];
    assert "@"[1..] == [];
    assert [Slot(a)][1..] == [];
  }

  lemma SubstituteTwo(s: string, a: Term, b: Term)
    ensures Substitute(s, [a, b]) == ReplaceFirst(ReplaceFirst(s, ArgInfo(a)), ArgInfo(b))
  {
    var s1 := ReplaceFirst(s, ArgInfo(a));
    assert [a, b][1..] == [b];
    assert Substitute(s, [a, b]) == Substitute(s1, [b]);
    assert [b][1..] == [];
    assert Substitute(s1, [b]) == Substitute(ReplaceFirst(s1, ArgInfo(b)), []);
  }

  /** `replace` hits the first `@`. */
  lemma ReplaceFirstAt(u: string, rest: string, rep: string)
    requires '@' !in u
    ensures ReplaceFirst(u + "@" + rest, rep) == u + rep + rest
  {
    ReplaceFirstPrefix(u, "@" + rest, rep);
    assert u + "@" + rest == u + ("@" + rest);
    assert ("@" + rest)[1..] == rest;
  }

  /**
   * The final `*`-to-`@` replacement also rewrites stars inside values: the values `"*"`
   * and `"@"` give the same name, where the intended names differ.
   */
  lemma AsWrittenStarClash()
    ensures CanonicalNameAsWritten(Clause("p@", [Val(Str("*"))]))
         == CanonicalNameAsWritten(Clause("p@", [Val(Str("@"))]))
    ensures CanonicalName(Clause("p@", [Val(Str("*"))])) != CanonicalName(Clause("p@", [Val(Str("@"))]))
  {
    StarNameAsWritten("*");
    StarNameAsWritten("@");
    assert "p" + "@" + "" == "p@";
    CanonicalNameSeparatesScalars("p", "", Str("*"), Str("@"));
  }

  /** The name `p@` with the value `"*"` or `"@"`, as written: both come out as `p("@")`. */
  lemma StarNameAsWritten(c: string)
    requires c == "*" || c == "@"
    ensures CanonicalNameAsWritten(Clause("p@", [Val(Str(c))])) == "p(\"@\")"
  {
    assert !Plain(c);
    var info := ArgInfo(Val(Str(c)));
    var named := "p(\"" + c + "\")";
    assert info == "(\"" + c + "\")";
    assert ReplaceFirst("p@", info) == named by {
      ReplaceFirstAt("p", "", info);
      assert "p" + "@" + "" == "p@";
      assert "p" + info + "" == named;
    }
    assert Substitute("p@", [Val(Str(c))]) == named by {
      assert [Val(Str(c))][1..] == [];
      assert Substitute("p@", [Val(Str(c))]) == Substitute(ReplaceFirst("p@", info), []);
    }
    assert StarsToAts(named) == "p(\"@\")" by {
      StarsToAtsAppend("p(\"" + c, "\")");
      StarsToAtsAppend("p(\"", c);
      StarsToAtsNoStar("p(\"");
      StarsToAtsNoStar("\")");
      assert StarsToAts(c) == "@";
      assert named == "p(\"" + c + "\")";
    }
  }

  /** The two readings agree when no value prints with `@` or `*` and the name has no `*`. */
  lemma AsWrittenAgrees(c: Clause)
    requires '*' !in c.name
    requires forall i | 0 <= i < |c.args| :: c.args[i].Val? ==>
      '@' !in Render(c.args[i].lit) && '*' !in Render(c.args[i].lit)
    ensures CanonicalNameAsWritten(c) == CanonicalName(c)
  {
    SubstituteFill(c.name, c.args);
  }

  lemma {:induction false} SubstituteFill(name: string, args: seq<Term>)
    requires '*' !in name
    requires forall i | 0 <= i < |args| :: args[i].Val? ==>
      '@' !in Render(args[i].lit) && '*' !in Render(args[i].lit)
    ensures StarsToAts(Substitute(name, args)) == Fill(name, Slots(args))
    decreases |name|
  {
    if name == [] {
      SubstituteEmpty(args);
    } else if name[0] == '@' && args != [] {
      var info := ArgInfo(args[0]);
      assert ReplaceFirst(name, info) == info + name[1..];
      SubstitutePrefix(info, name[1..], args[1..]);
      StarsToAtsAppend(info, Substitute(name[1..], args[1..]));
      SubstituteFill(name[1..], args[1..]);
      assert Slots(args)[1..] == Slots(args[1..]);
      assert StarsToAts(info) == Slot(args[0]) by {
        if args[0].Val? {
          StarsToAtsNoStar(info);
        }
      }
    } else {
      if args == [] {
        StarsToAtsNoStar(name);
        NoArgsName(name);
      } else {
        assert ReplaceFirst(name, ArgInfo(args[0])) == [name[0]] + ReplaceFirst(name[1..], ArgInfo(args[0]));
        SubstitutePrefix([name[0]], name[1..], args);
        StarsToAtsAppend([name[0]], Substitute(name[1..], args));
        SubstituteFill(name[1..], args);
      }
    }
  }

  lemma {:induction false} FillNoArgs(name: string)
    ensures Fill(name, []) == name
    decreases |name|
  {
    if name != [] {
      FillNoArgs(name[1..]);
      assert name == [name[0]] + name[1..];
    }
  }

  lemma {:induction false} SubstituteEmpty(args: seq<Term>)
    ensures Substitute([], args) == []
    decreases |args|
  {
    if args != [] {
      SubstituteEmpty(args[1..]);
    }
  }

  /** Replacing in `u + s` where `u` has no `@` only touches `s`. */
  lemma {:induction false} ReplaceFirstPrefix(u: string, s: string, rep: string)
    requires '@' !in u
    ensures ReplaceFirst(u + s, rep) == u + ReplaceFirst(s, rep)
    decreases |u|
  {
    if u != [] {
      ReplaceFirstPrefix(u[1..], s, rep);
      assert (u + s)[1..] == u[1..] + s;
      assert u == [u[0]] + u[1..];
    } else {
      assert u + s == s;
    }
  }

  lemma {:induction false} SubstitutePrefix(u: string, s: string, args: seq<Term>)
    requires '@' !in u
    ensures Substitute(u + s, args) == u + Substitute(s, args)
    decreases |args|
  {
    if args != [] {
      ReplaceFirstPrefix(u, s, ArgInfo(args[0]));
      SubstitutePrefix(u, ReplaceFirst(s, ArgInfo(args[0])), args[1..]);
    }
  }

  lemma {:induction false} StarsToAtsAppend(a: string, b: string)
    ensures StarsToAts(a + b) == StarsToAts(a) + StarsToAts(b)
    decreases |a|
  {
    if a != [] {
      StarsToAtsAppend(a[1..], b);
      assert (a + b)[1..] == a[1..] + b;
    } else {
      assert a + b == b;
    }
  }

  lemma {:induction false} StarsToAtsNoStar(s: string)
    requires '*' !in s
    ensures StarsToAts(s) == s
    decreases |s|
  {
    if s != [] {
      StarsToAtsNoStar(s[1..]);
      assert s == [s[0]] + s[1..];
    }
  }
}
