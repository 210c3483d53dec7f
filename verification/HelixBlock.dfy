/** The block function of Helix (helix.c, helix_block) as a function on the five
    state words, with the function that undoes it. */
module HelixBlock {
  import opened Words

  datatype State = State(z0: word, z1: word, z2: word, z3: word, z4: word)

  /** The first five rounds of each half: plaintext enters through p. */
  function AddHalf(z: State, p: word): State {
    var a0, z3 := Add(z.z0, Xor(z.z3, p)), Rol(z.z3, 15);
    var a1, z4 := Add(z.z1, z.z4), Rol(z.z4, 25);
    var a2, z0 := Xor(z.z2, a0), Rol(a0, 9);
    var a3, z1 := Xor(z3, a1), Rol(a1, 10);
    var a4, z2 := Add(z4, a2), Rol(a2, 17);
    State(z0, z1, z2, a3, a4)
  }

  /** The last five rounds of each half: a key word enters through x. */
  function XorHalf(z: State, x: word): State {
    var a0, z3 := Xor(z.z0, Add(z.z3, x)), Rol(z.z3, 30);
    var a1, z4 := Xor(z.z1, z.z4), Rol(z.z4, 13);
    var a2, z0 := Add(z.z2, a0), Rol(a0, 20);
    var a3, z1 := Add(z3, a1), Rol(a1, 11);
    var a4, z2 := Xor(z4, a2), Rol(a2, 5);
    State(z0, z1, z2, a3, a4)
  }

  function Block(z: State, x0: word, x1: word, p: word): State {
    XorHalf(AddHalf(XorHalf(AddHalf(z, 0), x0), p), x1)
  }

  // ---- the inverse --------------------------------------------------------

  function UndoAddHalf(z: State, p: word): State {
    var a0, a1, a2 := Rol(z.z0, 23), Rol(z.z1, 22), Rol(z.z2, 15);
    var z4 := Rol(Sub(z.z4, a2), 7);
    var z3 := Rol(Xor(z.z3, a1), 17);
    State(Sub(a0, Xor(z3, p)), Sub(a1, z4), Xor(a2, a0), z3, z4)
  }

  function UndoXorHalf(z: State, x: word): State {
    var a0, a1, a2 := Rol(z.z0, 12), Rol(z.z1, 21), Rol(z.z2, 27);
    var z4 := Rol(Xor(z.z4, a2), 19);
    var z3 := Rol(Sub(z.z3, a1), 2);
    State(Xor(a0, Add(z3, x)), Xor(a1, z4), Sub(a2, a0), z3, z4)
  }

  function UndoBlock(z: State, x0: word, x1: word, p: word): State {
    UndoAddHalf(UndoXorHalf(UndoAddHalf(UndoXorHalf(z, x1), p), x0), 0)
  }

  lemma AddHalfInvertible(z: State, p: word)
    ensures UndoAddHalf(AddHalf(z, p), p) == z
    ensures AddHalf(UndoAddHalf(z, p), p) == z
  {
    {
      var x := Xor(z.z3, p);
      var a0, a1, z4 := Add(z.z0, x), Add(z.z1, z.z4), Rol(z.z4, 25);
      var a2 := Xor(z.z2, a0);
      RolCancel(a0, 9);
      RolCancel(a1, 10);
      RolCancel(a2, 17);
      RolCancel(z.z4, 25);
      RolCancel(z.z3, 15);
      AddCancel(z4, a2);
      AddCancel(z.z0, x);
      AddCancel(z.z1, z.z4);
      XorCancel(Rol(z.z3, 15), a1);
      XorCancel(z.z2, a0);
    }
    {
      var a0, a1, a2 := Rol(z.z0, 23), Rol(z.z1, 22), Rol(z.z2, 15);
      var r3, r4 := Xor(z.z3, a1), Sub(z.z4, a2);
      RolCancel(z.z0, 23);
      RolCancel(z.z1, 22);
      RolCancel(z.z2, 15);
      RolCancel(r3, 17);
      RolCancel(r4, 7);
      AddCancel(z.z4, a2);
      AddCancel(a0, Xor(Rol(r3, 17), p));
      AddCancel(a1, Rol(r4, 7));
      XorCancel(z.z3, a1);
      XorCancel(a2, a0);
    }
  }

  lemma XorHalfInvertible(z: State, x: word)
    ensures UndoXorHalf(XorHalf(z, x), x) == z
    ensures XorHalf(UndoXorHalf(z, x), x) == z
  {
    {
      var y := Add(z.z3, x);
      var a0, a1, z3 := Xor(z.z0, y), Xor(z.z1, z.z4), Rol(z.z3, 30);
      var a2 := Add(z.z2, a0);
      RolCancel(a0, 20);
      RolCancel(a1, 11);
      RolCancel(a2, 5);
      RolCancel(z.z4, 13);
      RolCancel(z.z3, 30);
      AddCancel(z3, a1);
      AddCancel(z.z2, a0);
      XorCancel(z.z0, y);
      XorCancel(z.z1, z.z4);
      XorCancel(Rol(z.z4, 13), a2);
    }
    {
      var a0, a1, a2 := Rol(z.z0, 12), Rol(z.z1, 21), Rol(z.z2, 27);
      var r3, r4 := Sub(z.z3, a1), Xor(z.z4, a2);
      RolCancel(z.z0, 12);
      RolCancel(z.z1, 21);
      RolCancel(z.z2, 27);
      RolCancel(r3, 2);
      RolCancel(r4, 19);
      AddCancel(z.z3, a1);
      AddCancel(a2, a0);
      XorCancel(a0, Add(Rol(r3, 2), x));
      XorCancel(a1, Rol(r4, 19));
      XorCancel(z.z4, a2);
    }
  }

  /** For fixed key words and plaintext the 20 rounds permute the states. */
  lemma BlockBijective(z: State, x0: word, x1: word, p: word)
    ensures UndoBlock(Block(z, x0, x1, p), x0, x1, p) == z
    ensures Block(UndoBlock(z, x0, x1, p), x0, x1, p) == z
  {
    var a := AddHalf(z, 0);
    var b := XorHalf(a, x0);
    var c := AddHalf(b, p);
    AddHalfInvertible(z, 0);
    XorHalfInvertible(a, x0);
    AddHalfInvertible(b, p);
    XorHalfInvertible(c, x1);
    var d := UndoXorHalf(z, x1);
    var e := UndoAddHalf(d, p);
    var f := UndoXorHalf(e, x0);
    XorHalfInvertible(z, x1);
    AddHalfInvertible(d, p);
    XorHalfInvertible(e, x0);
    AddHalfInvertible(f, 0);
  }

  /** From one state, different plaintext words lead to different states. */
  lemma BlockInjectiveInPlaintext(z: State, x0: word, x1: word, p: word, q: word)
    requires Block(z, x0, x1, p) == Block(z, x0, x1, q)
    ensures p == q
  {
    var b := XorHalf(AddHalf(z, 0), x0);
    XorHalfInvertible(AddHalf(b, p), x1);
    XorHalfInvertible(AddHalf(b, q), x1);
    assert AddHalf(b, p) == AddHalf(b, q);
    PlaintextOfAddHalf(b, p, q);
  }

  lemma PlaintextOfAddHalf(b: State, p: word, q: word)
    requires AddHalf(b, p) == AddHalf(b, q)
    ensures p == q
  {
    var x, y := Xor(b.z3, p), Xor(b.z3, q);
    RolCancel(Add(b.z0, x), 9);
    RolCancel(Add(b.z0, y), 9);
    assert Add(b.z0, x) == Add(b.z0, y);
    AddCommutes(b.z0, x);
    AddCommutes(b.z0, y);
    AddCancel(x, b.z0);
    AddCancel(y, b.z0);
    XorCancel(p, b.z3);
    XorCancel(q, b.z3);
  }
}
