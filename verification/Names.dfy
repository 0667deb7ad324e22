/** Node identifiers built from IEC 61499 names: a function block "F" gets the
    string id "F" and its data output "V" gets "F.V". */
module Names {

  /** IEC identifiers are not empty and contain no dot. */
  type Name = s: string | s != "" && '.' !in s witness "x"

  /** What one OPC_UA_PUBLISH block publishes: the block and the data output that feed its input. */
  datatype Pair = Pair(fb: Name, v: Name)

  function Dotted(fb: string, v: string): string {
    fb + "." + v
  }

  function VarString(p: Pair): string {
    Dotted(p.fb, p.v)
  }

  /** On arbitrary strings two dotted ids coincide exactly when the names do, or one block name
      extends the other by a dotted suffix that the other variable name absorbs. */
  lemma DottedCollision(f1: string, v1: string, f2: string, v2: string)
    ensures Dotted(f1, v1) == Dotted(f2, v2) <==>
            || (f1 == f2 && v1 == v2)
            || (exists m: string :: f1 == Dotted(f2, m) && v2 == Dotted(m, v1))
            || (exists m: string :: f2 == Dotted(f1, m) && v1 == Dotted(m, v2))
  {
    if Dotted(f1, v1) == Dotted(f2, v2) {
      if |f1| == |f2| {
        SplitAt(f1, v1, f2, v2);
      } else if |f1| > |f2| {
        CollisionMiddle(f1, v1, f2, v2);
      } else {
        CollisionMiddle(f2, v2, f1, v1);
      }
    }
    forall m: string | f1 == Dotted(f2, m) && v2 == Dotted(m, v1)
      ensures Dotted(f1, v1) == Dotted(f2, v2)
    {
      assert f2 + "." + m + "." + v1 == f2 + "." + (m + "." + v1);
    }
    forall m: string | f2 == Dotted(f1, m) && v1 == Dotted(m, v2)
      ensures Dotted(f1, v1) == Dotted(f2, v2)
    {
      assert f1 + "." + m + "." + v2 == f1 + "." + (m + "." + v2);
    }
  }

  lemma SplitAt(f1: string, v1: string, f2: string, v2: string)
    requires Dotted(f1, v1) == Dotted(f2, v2) && |f1| == |f2|
    ensures f1 == f2 && v1 == v2
  {
    assert f1 == Dotted(f1, v1)[..|f1|] == f2;
    assert v1 == Dotted(f1, v1)[|f1| + 1..] == v2;
  }

  lemma CollisionMiddle(f1: string, v1: string, f2: string, v2: string)
    requires Dotted(f1, v1) == Dotted(f2, v2) && |f1| > |f2|
    ensures exists m: string :: f1 == Dotted(f2, m) && v2 == Dotted(m, v1)
  {
    var whole := Dotted(f1, v1);
    var m := f1[|f2| + 1..];
    assert f1 == whole[..|f1|];
    assert f2 == whole[..|f2|];
    assert whole[|f2|] == '.';
    assert f1 == Dotted(f2, m);
    assert v2 == whole[|f2| + 1..];
    assert v2 == Dotted(m, v1);
  }

  lemma DottedHasDot(f: string, v: string)
    ensures '.' in Dotted(f, v)
  {
    assert Dotted(f, v)[|f|] == '.';
  }

  /** On dot-free names the id is injective. */
  lemma VarStringInjective(p: Pair, q: Pair)
    ensures VarString(p) == VarString(q) <==> p == q
  {
    DottedCollision(p.fb, p.v, q.fb, q.v);
    forall m: string ensures p.fb != Dotted(q.fb, m) && q.fb != Dotted(p.fb, m) {
      DottedHasDot(q.fb, m);
      DottedHasDot(p.fb, m);
    }
  }

  /** No variable id is a block id. */
  lemma VarStringIsNoName(p: Pair, n: Name)
    ensures VarString(p) != n
  {
    DottedHasDot(p.fb, p.v);
  }

  /** Without the dot restriction two different pairs can share an id. */
  lemma DottedNamesCollide()
    ensures ("a.b", "c") != ("a", "b.c") && Dotted("a.b", "c") == Dotted("a", "b.c")
  {
    assert Dotted("a.b", "c") == "a.b.c" == Dotted("a", "b.c");
  }
}
