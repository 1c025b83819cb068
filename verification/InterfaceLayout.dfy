/** The dof-major layout of the interfaces that IconHwmController requests, which gives the
    strided indices of Ros2HwmImpl their meaning. */
module InterfaceLayout {
  import opened Arithmetic

  /** Index of component `c` of joint `i`. */
  function Slot(stride: nat, i: nat, c: nat): nat {
    i * stride + c
  }

  lemma {:induction false} SlotDivMod(stride: nat, i: nat, c: nat)
    requires c < stride
    ensures Slot(stride, i, c) / stride == i && Slot(stride, i, c) % stride == c
  {
    var k := Slot(stride, i, c);
    DivisionIsUnique(stride, i, c, k / stride, k % stride);
  }

  lemma {:induction false} SlotBounds(n: nat, stride: nat, i: nat, c: nat)
    requires i < n && c < stride
    ensures Slot(stride, i, c) < n * stride
  {
    MulStep(i, n, stride);
  }

  lemma {:induction false} DivBounds(n: nat, stride: nat, k: nat)
    requires stride > 0 && k < n * stride
    ensures k / stride < n && k % stride < stride
    ensures Slot(stride, k / stride, k % stride) == k
  {
    var q := k / stride;
    if q > n {
      MulStep(n, q, stride);
    }
  }

  function FullName(dof: string, interfaceType: string): string {
    dof + "/" + interfaceType
  }

  ghost predicate IsLayout(names: seq<string>, dofNames: seq<string>, types: seq<string>) {
    && |names| == |dofNames| * |types|
    && forall i, c :: 0 <= i < |dofNames| && 0 <= c < |types| ==>
         Slot(|types|, i, c) < |names| && names[Slot(|types|, i, c)] == FullName(dofNames[i], types[c])
  }

  /** The nested loops of both `command_interface_configuration` and `state_interface_configuration`. */
  method InterfaceConfiguration(dofNames: seq<string>, types: seq<string>) returns (names: seq<string>)
    ensures IsLayout(names, dofNames, types)
  {
    names := [];
    for i := 0 to |dofNames|
      invariant |names| == Slot(|types|, i, 0)
      invariant IsLayout(names, dofNames[..i], types)
    {
      ghost var before := names;
      for c := 0 to |types|
        invariant |names| == Slot(|types|, i, c)
        invariant before <= names
        invariant forall d :: 0 <= d < c ==> names[Slot(|types|, i, d)] == FullName(dofNames[i], types[d])
      {
        names := names + [FullName(dofNames[i], types[c])];
      }
      assert dofNames[..i + 1] == dofNames[..i] + [dofNames[i]];
      assert |names| == (i + 1) * |types|;
      forall j, c | 0 <= j < i + 1 && 0 <= c < |types|
        ensures Slot(|types|, j, c) < |names| && names[Slot(|types|, j, c)] == FullName(dofNames[j], types[c])
      {
        if j < i {
          assert FullName(dofNames[..i][j], types[c]) == before[Slot(|types|, j, c)];
        }
      }
    }
    assert dofNames[..|dofNames|] == dofNames;
  }

  /** Cuts a full name at its last slash. */
  function SplitName(name: string): (string, string) {
    if name == [] then ("", "")
    else if name[|name| - 1] == '/' then (name[..|name| - 1], "")
    else
      var (dof, rest) := SplitName(name[..|name| - 1]);
      (dof, rest + [name[|name| - 1]])
  }

  /** Joint and interface type can be read back from a full name when the type has no slash. */
  lemma {:induction false} SplitFullName(dof: string, interfaceType: string)
    requires '/' !in interfaceType
    ensures SplitName(FullName(dof, interfaceType)) == (dof, interfaceType)
    decreases |interfaceType|
  {
    var name := FullName(dof, interfaceType);
    if interfaceType == "" {
      assert name[..|name| - 1] == dof;
    } else {
      var shorter := interfaceType[..|interfaceType| - 1];
      SplitFullName(dof, shorter);
      assert name[..|name| - 1] == FullName(dof, shorter);
      assert interfaceType == shorter + [interfaceType[|interfaceType| - 1]];
    }
  }

  // ---- When the names of a layout are distinct ----

  ghost predicate Distinct<T>(s: seq<T>) {
    forall i, j :: 0 <= i < j < |s| ==> s[i] != s[j]
  }

  /** `longer` is some text, a slash and `shorter`. */
  predicate EndsInSlash(longer: string, shorter: string) {
    |shorter| < |longer| && longer[|longer| - |shorter| - 1..] == "/" + shorter
  }

  /** No type occurs twice, and none ends in a slash followed by another type. */
  ghost predicate Separated(types: seq<string>) {
    && Distinct(types)
    && forall c, d :: 0 <= c < |types| && 0 <= d < |types| ==> !EndsInSlash(types[c], types[d])
  }

  /** Every choice of distinct joint names gives distinct full names. */
  ghost predicate AlwaysDistinct(types: seq<string>) {
    forall names, dofNames :: IsLayout(names, dofNames, types) && Distinct(dofNames) ==> Distinct(names)
  }

  /** Two equal full names are of the same joint and type, or one type hides in the other. */
  lemma {:induction false} EqualFullNames(a: string, s: string, b: string, t: string)
    requires FullName(a, s) == FullName(b, t) && |t| <= |s|
    ensures (a == b && s == t) || EndsInSlash(s, t)
  {
    var name := FullName(a, s);
    var n := |name| - |t|;
    assert name[n..] == t && name[n - 1..] == "/" + t;
    if |s| == |t| {
      assert name[n..] == s;
      assert name[..n - 1] == a && name[..n - 1] == b;
    } else {
      assert name[n - 1..] == s[|s| - |t| - 1..];
    }
  }

  lemma {:induction false} SeparatedNamesDiffer(
      dofNames: seq<string>, types: seq<string>, i: nat, c: nat, j: nat, d: nat)
    requires Distinct(dofNames) && Separated(types)
    requires i < |dofNames| && j < |dofNames| && c < |types| && d < |types| && (i != j || c != d)
    ensures FullName(dofNames[i], types[c]) != FullName(dofNames[j], types[d])
  {
    if FullName(dofNames[i], types[c]) == FullName(dofNames[j], types[d]) {
      if |types[d]| <= |types[c]| {
        EqualFullNames(dofNames[i], types[c], dofNames[j], types[d]);
      } else {
        EqualFullNames(dofNames[j], types[d], dofNames[i], types[c]);
      }
    }
  }

  lemma {:induction false} NameAt(names: seq<string>, dofNames: seq<string>, types: seq<string>, k: nat)
      returns (i: nat, c: nat)
    requires IsLayout(names, dofNames, types) && types != [] && k < |names|
    ensures i < |dofNames| && c < |types| && k == Slot(|types|, i, c)
    ensures names[k] == FullName(dofNames[i], types[c])
  {
    DivBounds(|dofNames|, |types|, k);
    i, c := k / |types|, k % |types|;
  }

  function LayoutNames(dofNames: seq<string>, types: seq<string>): (names: seq<string>)
    requires types != []
    ensures IsLayout(names, dofNames, types)
  {
    var names := seq(|dofNames| * |types|, k requires 0 <= k < |dofNames| * |types| =>
      DivBounds(|dofNames|, |types|, k);
      FullName(dofNames[k / |types|], types[k % |types|]));
    assert forall i, c :: 0 <= i < |dofNames| && 0 <= c < |types| ==>
      Slot(|types|, i, c) < |names| && names[Slot(|types|, i, c)] == FullName(dofNames[i], types[c]) by {
      forall i, c | 0 <= i < |dofNames| && 0 <= c < |types|
        ensures Slot(|types|, i, c) < |names| && names[Slot(|types|, i, c)] == FullName(dofNames[i], types[c])
      {
        SlotBounds(|dofNames|, |types|, i, c);
        SlotDivMod(|types|, i, c);
      }
    }
    names
  }

  /** Joint names for which two full names are equal. */
  lemma {:induction false} CollidingJoints(types: seq<string>, c: nat, d: nat) returns (dofNames: seq<string>)
    requires c < |types| && d < |types|
    requires EndsInSlash(types[c], types[d]) || (c != d && types[c] == types[d])
    ensures Distinct(dofNames) && !Distinct(LayoutNames(dofNames, types))
  {
    var s, t := types[c], types[d];
    if c != d && s == t {
      dofNames := ["x"];
      assert LayoutNames(dofNames, types)[Slot(|types|, 0, c)] == LayoutNames(dofNames, types)[Slot(|types|, 0, d)];
    } else {
      var inner := s[..|s| - |t| - 1];
      dofNames := ["a", "a/" + inner];
      assert s == inner + ("/" + t);
      assert FullName("a", s) == FullName("a/" + inner, t);
      SlotDivMod(|types|, 0, c);
      SlotDivMod(|types|, 1, d);
      assert LayoutNames(dofNames, types)[Slot(|types|, 0, c)] == LayoutNames(dofNames, types)[Slot(|types|, 1, d)];
    }
  }

  /** Distinct joints give distinct full names, whatever the joints are called, exactly when the
      types are separated; slashes in types are otherwise harmless. */
  lemma {:induction false} NamesDistinctExactly(types: seq<string>)
    requires types != []
    ensures AlwaysDistinct(types) <==> Separated(types)
  {
    if Separated(types) {
      forall names, dofNames | IsLayout(names, dofNames, types) && Distinct(dofNames) ensures Distinct(names) {
        forall k, l | 0 <= k < l < |names| ensures names[k] != names[l] {
          var i, c := NameAt(names, dofNames, types, k);
          var j, d := NameAt(names, dofNames, types, l);
          SeparatedNamesDiffer(dofNames, types, i, c, j, d);
        }
      }
    } else {
      var c, d :| 0 <= c < |types| && 0 <= d < |types| &&
        (EndsInSlash(types[c], types[d]) || (c != d && types[c] == types[d]));
      var dofNames := CollidingJoints(types, c, d);
      assert IsLayout(LayoutNames(dofNames, types), dofNames, types);
    }
  }
}
