/**
 * The member built-ins `@contains@`, `member@@`, `member@@@` and `@at index@is@`: instead
 * of looking at stored facts, a condition with one of these names ranges over the facts
 * the built-in generates from its first argument.
 */
module Builtins {
  import opened Wrappers
  import opened Literals
  import opened Terms

  predicate IsThreeArgMember(name: string) {
    name == "@at index@is@" || name == "member@@@"
  }

  predicate IsMember(name: string) {
    name == "@contains@" || name == "member@@" || IsThreeArgMember(name)
  }

  /** The only built-in rules are the member rules. */
  predicate IsBuiltin(name: string) {
    IsMember(name)
  }

  /** The elements a value is iterated over by index: the characters of a string, the items of an array. */
  function Elements(l: Literal): (r: seq<Literal>)
    ensures l.Str? ==> |r| == |l.s| && forall i | 0 <= i < |l.s| :: r[i] == Str([l.s[i]])
    ensures l.List? ==> r == l.items
    ensures !l.Str? && !l.List? ==> r == []
  {
    match l
    case Str(s) => seq(|s|, i requires 0 <= i < |s| => Str([s[i]]))
    case List(xs) => xs
    case _ => []
  }

  /**
   * The arguments of the fact for element `e` at index `idx`. Three-argument names get
   * the index too: after the element for a name starting with `member`, before it
   * otherwise.
   */
  function MemberArgs(name: string, first: Term, e: Literal, idx: nat): seq<Term> {
    if !IsThreeArgMember(name) then [first, Val(e)]
    else if |name| >= 6 && name[..6] == "member" then [first, Val(e), Val(Num(idx))]
    else [first, Val(Num(idx)), Val(e)]
  }

  /**
   * `factsIteratorForMemberRule`: the facts a member condition ranges over. A first argument
   * that is not a value, or a value that is not a string or an array, yields none. A clause
   * without arguments has no first argument to read, which the engine reports as an error.
   */
  function MemberFacts(c: Clause): (r: Result<seq<Clause>, string>)
    ensures r.Failure? <==> |c.args| == 0
    ensures r.Success? && c.args[0].Val? && c.args[0].lit.Str? ==> |r.value| == |c.args[0].lit.s|
    ensures r.Success? && c.args[0].Val? && c.args[0].lit.List? ==> |r.value| == |c.args[0].lit.items|
    ensures r.Success? && !(c.args[0].Val? && (c.args[0].lit.Str? || c.args[0].lit.List?)) ==> r.value == []
  {
    if |c.args| == 0 then Failure("cannot read the first argument of " + c.name)
    else
      var es := if c.args[0].Val? then Elements(c.args[0].lit) else [];
      Success(seq(|es|, i requires 0 <= i < |es| => Clause(c.name, MemberArgs(c.name, c.args[0], es[i], i))))
  }

  /** The fact for element `e` at index `i`, with the arguments laid out as each name expects. */
  ghost predicate MemberFact(c: Clause, f: Clause, e: Literal, i: nat)
    requires |c.args| > 0
  {
    f.name == c.name &&
    (c.name == "@contains@" || c.name == "member@@" ==> f.args == [c.args[0], Val(e)]) &&
    (c.name == "member@@@" ==> f.args == [c.args[0], Val(e), Val(Num(i))]) &&
    (c.name == "@at index@is@" ==> f.args == [c.args[0], Val(Num(i)), Val(e)])
  }

  lemma MemberArgsLayout(c: Clause, e: Literal, i: nat)
    requires |c.args| > 0 && IsMember(c.name)
    ensures MemberFact(c, Clause(c.name, MemberArgs(c.name, c.args[0], e, i)), e, i)
  {
    if c.name == "member@@@" {
      assert c.name[..6] == "member";
    } else if c.name == "@at index@is@" {
      assert c.name[0] == '@';
    }
  }

  /** A fact is generated exactly when it is the fact of some element at its index. */
  lemma MemberFactsAre(c: Clause, f: Clause)
    requires |c.args| > 0 && IsMember(c.name)
    ensures f in MemberFacts(c).value <==>
      c.args[0].Val? &&
      exists i | 0 <= i < |Elements(c.args[0].lit)| :: MemberFact(c, f, Elements(c.args[0].lit)[i], i)
  {
    var fs := MemberFacts(c).value;
    if f in fs {
      var i :| 0 <= i < |fs| && fs[i] == f;
      MemberArgsLayout(c, Elements(c.args[0].lit)[i], i);
    }
    if c.args[0].Val? &&
       exists i | 0 <= i < |Elements(c.args[0].lit)| :: MemberFact(c, f, Elements(c.args[0].lit)[i], i) {
      var es := Elements(c.args[0].lit);
      var i :| 0 <= i < |es| && MemberFact(c, f, es[i], i);
      MemberArgsLayout(c, es[i], i);
      assert fs[i] == f;
    }
  }
}
