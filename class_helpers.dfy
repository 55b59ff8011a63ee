/** The self-contained string and array helpers of java.lang.Class: the
    MethodArray growable array used when collecting public methods,
    arrayContentsEq, the name logic of resolveName, the "$digits" stripping at
    the end of getSimpleName, isAsciiDigit and argumentTypesToString.
    Classes are modelled by a type parameter C compared by identity (==). */
module ClassHelpers {
  import opened Common

  // ---------------------------------------------------------------------------
  // Reflected methods
  // ---------------------------------------------------------------------------

  /** What Method.equals compares: declaring class, name, return type and
      parameter types. Equality of this datatype is Method.equals. */
  datatype Method<C> = Method(declaringClass: C, name: string, returnType: C, parameterTypes: seq<C>)

  /** The test of removeByNameAndSignature: same return type, same name and
      parameter arrays with identical contents (the declaring class is ignored). */
  predicate SameNameAndSignature<C(==)>(m: Method<C>, toRemove: Method<C>) {
    m.returnType == toRemove.returnType && m.name == toRemove.name
    && m.parameterTypes == toRemove.parameterTypes
  }

  // ---------------------------------------------------------------------------
  // arrayContentsEq
  // ---------------------------------------------------------------------------

  /** The elements of a possibly-null array, a null array having none. */
  function Elements<T>(a: Option<seq<T>>): seq<T> {
    if a.None? then [] else a.value
  }

  /** arrayContentsEq: a null array equals an empty one; otherwise the lengths
      must match and the elements be pairwise identical. */
  method ArrayContentsEq<T(==)>(a1: Option<seq<T>>, a2: Option<seq<T>>) returns (r: bool)
    ensures r <==> Elements(a1) == Elements(a2)
    ensures r <==> (|Elements(a1)| == |Elements(a2)|
                    && forall i :: 0 <= i < |Elements(a1)| ==> Elements(a1)[i] == Elements(a2)[i])
  {
    if a1.None? {
      return a2.None? || |a2.value| == 0;
    }
    if a2.None? {
      return |a1.value| == 0;
    }
    if |a1.value| != |a2.value| {
      return false;
    }
    var i := 0;
    while i < |a1.value|
      invariant 0 <= i <= |a1.value|
      invariant a1.value[..i] == a2.value[..i]
    {
      if a1.value[i] != a2.value[i] {
        return false;
      }
      i := i + 1;
    }
    assert a1.value == a1.value[..i];
    assert a2.value == a2.value[..i];
    return true;
  }

  // ---------------------------------------------------------------------------
  // The MethodArray growable array
  // ---------------------------------------------------------------------------

  /** The slots of a sequence of possibly-null methods with the nulls dropped,
      in their original order. */
  function Compacted<T>(s: seq<Option<T>>): (r: seq<Option<T>>)
    ensures |r| <= |s|
  {
    if s == [] then []
    else Compacted(s[..|s| - 1]) + (if s[|s| - 1].Some? then [s[|s| - 1]] else [])
  }

  /** Compaction keeps exactly the non-null slots. */
  lemma {:induction false} CompactedElements<T>(s: seq<Option<T>>)
    ensures forall x :: x in Compacted(s) ==> x.Some?
    ensures forall x: Option<T> :: x.Some? ==> (x in Compacted(s) <==> x in s)
  {
    if s != [] {
      CompactedElements(s[..|s| - 1]);
      assert s == s[..|s| - 1] + [s[|s| - 1]];
    }
  }

  /** Compaction drops nothing from a sequence without nulls. */
  lemma {:induction false} CompactedNoNulls<T>(s: seq<Option<T>>)
    requires forall i :: 0 <= i < |s| ==> s[i].Some?
    ensures Compacted(s) == s
  {
    if s != [] {
      CompactedNoNulls(s[..|s| - 1]);
    }
  }

  /** Compaction of a sequence with a null slot is strictly shorter. */
  lemma {:induction false} CompactedDropsNull<T>(s: seq<Option<T>>, k: nat)
    requires k < |s| && s[k].None?
    ensures |Compacted(s)| < |s|
  {
    if k < |s| - 1 {
      CompactedDropsNull(s[..|s| - 1], k);
    }
  }

  /** Compaction keeps the length exactly when there is no null slot. */
  lemma {:induction false} CompactedSameLength<T>(s: seq<Option<T>>)
    ensures |Compacted(s)| == |s| <==> forall i :: 0 <= i < |s| ==> s[i].Some?
  {
    if forall i :: 0 <= i < |s| ==> s[i].Some? {
      CompactedNoNulls(s);
    } else {
      var k :| 0 <= k < |s| && s[k].None?;
      CompactedDropsNull(s, k);
    }
  }

  /** The slots after removeByNameAndSignature: each non-null slot matching
      toRemove becomes null, every other slot is kept. */
  function NulledOut<C(==)>(s: seq<Option<Method<C>>>, toRemove: Method<C>): (r: seq<Option<Method<C>>>)
    ensures |r| == |s|
  {
    seq(|s|, i requires 0 <= i < |s| =>
      if s[i].Some? && SameNameAndSignature(s[i].value, toRemove) then None else s[i])
  }

  /** Whether some slot is non-null. */
  predicate HasNonNull<T>(s: seq<Option<T>>) {
    exists i :: 0 <= i < |s| && s[i].Some?
  }

  /** The effect of addIfNotPresent on the used slots: nothing if an equal
      element is already there, otherwise an append. */
  function AddedIfNotPresent<T(==)>(s: seq<Option<T>>, x: Option<T>): seq<Option<T>> {
    if x in s then s else s + [x]
  }

  /** The effect of addAllIfNotPresent: each non-null element of xs, in order,
      added if not present. */
  function AllAddedIfNotPresent<T(==)>(s: seq<Option<T>>, xs: seq<Option<T>>): seq<Option<T>>
    decreases |xs|
  {
    if xs == [] then s
    else
      var s' := if xs[|xs| - 1].Some? then
                  AddedIfNotPresent(AllAddedIfNotPresent(s, xs[..|xs| - 1]), xs[|xs| - 1])
                else AllAddedIfNotPresent(s, xs[..|xs| - 1]);
      s'
  }

  /** addAllIfNotPresent keeps what was there, adds every non-null element of xs,
      adds nothing else, and introduces no duplicate. */
  lemma {:induction false} AllAddedIfNotPresentSpec<T>(s: seq<Option<T>>, xs: seq<Option<T>>)
    ensures |AllAddedIfNotPresent(s, xs)| >= |s|
    ensures AllAddedIfNotPresent(s, xs)[..|s|] == s
    ensures forall x :: x in xs && x.Some? ==> x in AllAddedIfNotPresent(s, xs)
    ensures forall x :: x in AllAddedIfNotPresent(s, xs) ==> x in s || (x in xs && x.Some?)
    ensures forall i, j :: |s| <= i < j < |AllAddedIfNotPresent(s, xs)| ==>
              AllAddedIfNotPresent(s, xs)[i] != AllAddedIfNotPresent(s, xs)[j]
    ensures forall i, j :: 0 <= i < |s| <= j < |AllAddedIfNotPresent(s, xs)| ==>
              s[i] != AllAddedIfNotPresent(s, xs)[j]
    decreases |xs|
  {
    if xs != [] {
      var init := xs[..|xs| - 1];
      AllAddedIfNotPresentSpec(s, init);
      assert xs == init + [xs[|xs| - 1]];
    }
  }

  class MethodArray<C(==)> {
    var methods: array<Option<Method<C>>>
    var length: nat

    ghost predicate Valid()
      reads this
    {
      length <= methods.Length
    }

    /** The used slots, 0 .. length-1. */
    ghost function Elements(): seq<Option<Method<C>>>
      requires Valid()
      reads this, methods
    {
      methods[..length]
    }

    /** MethodArray(): twenty empty slots. */
    constructor ()
      ensures Valid() && fresh(methods)
      ensures methods.Length == 20 && length == 0 && Elements() == []
      ensures forall i :: 0 <= i < methods.Length ==> methods[i].None?
    {
      methods := new Option<Method<C>>[20](_ => None);
      length := 0;
    }

    /** add: append at position length, doubling the backing array when it is
        full. The store `methods[length++] = m` increments length before the
        array store is checked, so when it fails (a backing array of length 0
        doubled to length 0, or one that compactAndTrim shortened below length)
        length has still grown by one. */
    method Add(m: Option<Method<C>>) returns (outcome: Outcome)
      modifies this, methods
      ensures methods == old(methods) || fresh(methods)
      ensures methods.Length >= old(methods.Length)
      ensures length == old(length) + 1
      ensures outcome == (if old(length) < old(methods.Length) || 0 < old(length) == old(methods.Length)
                          then Pass else Fail(IndexOutOfBounds))
      ensures old(Valid()) ==> outcome == (if old(methods.Length) == 0 then Fail(IndexOutOfBounds) else Pass)
      ensures outcome.Pass? ==> old(Valid()) && Valid() && Elements() == old(Elements()) + [m]
      ensures outcome.Fail? ==> methods.Length == old(methods.Length) && methods[..] == old(methods[..])
      ensures old(length) < old(methods.Length) ==>
                methods == old(methods) && methods[..] == old(methods[..])[old(length) := m]
      ensures 0 < old(length) == old(methods.Length) ==>
                fresh(methods) && methods.Length == 2 * old(methods.Length)
                && methods[..] == (old(methods[..]) + [m] + seq(old(methods.Length) - 1, _ => None))
    {
      if length == methods.Length {
        methods := CopyOf(methods, 2 * methods.Length);
      }
      if length < methods.Length {
        methods[length] := m;
        length := length + 1;
        outcome := Pass;
      } else {
        length := length + 1;
        outcome := Fail(IndexOutOfBounds);
      }
    }

    /** addAll(Method[]): add each element in order. */
    method AddAllArray(ma: seq<Option<Method<C>>>) returns (outcome: Outcome)
      requires Valid()
      modifies this, methods
      ensures outcome.Pass? ==> Valid()
      ensures outcome.Fail? ==> length == old(length) + 1 && methods.Length == 0
      ensures methods == old(methods) || fresh(methods)
      ensures outcome == (if old(methods.Length) == 0 && |ma| > 0 then Fail(IndexOutOfBounds) else Pass)
      ensures outcome.Pass? ==> Elements() == old(Elements()) + ma
    {
      var i := 0;
      while i < |ma|
        invariant 0 <= i <= |ma|
        invariant Valid()
        invariant methods == old(methods) || fresh(methods)
        invariant methods.Length == 0 <==> old(methods.Length) == 0
        invariant Elements() == old(Elements()) + ma[..i]
      {
        outcome := Add(ma[i]);
        if outcome.Fail? {
          return;
        }
        assert ma[..i + 1] == ma[..i] + [ma[i]];
        i := i + 1;
      }
      assert ma[..i] == ma;
      outcome := Pass;
    }

    /** addAll(MethodArray): add the used slots of another MethodArray; the
        other array is never this one. */
    method AddAll(ma: MethodArray<C>) returns (outcome: Outcome)
      requires Valid() && ma.Valid() && ma != this && ma.methods != methods
      modifies this, methods
      ensures outcome.Pass? ==> Valid()
      ensures outcome.Fail? ==> length == old(length) + 1 && methods.Length == 0
      ensures outcome == (if old(methods.Length) == 0 && ma.length > 0 then Fail(IndexOutOfBounds) else Pass)
      ensures outcome.Pass? ==> Elements() == old(Elements()) + old(ma.Elements())
    {
      var items := ma.methods[..ma.length];
      outcome := AddAllArray(items);
    }

    /** addIfNotPresent: nothing if an equal element (or the same null) is
        among the used slots, otherwise add. */
    method AddIfNotPresent(newMethod: Option<Method<C>>) returns (outcome: Outcome)
      requires Valid()
      modifies this, methods
      ensures outcome.Pass? ==> Valid()
      ensures outcome.Fail? ==> length == old(length) + 1 && methods.Length == 0
      ensures methods == old(methods) || fresh(methods)
      ensures methods.Length >= old(methods.Length)
      ensures newMethod in old(Elements()) ==>
                outcome == Pass && length == old(length) && methods == old(methods)
                && methods[..] == old(methods[..])
      ensures newMethod !in old(Elements()) ==>
                outcome == (if old(methods.Length) == 0 then Fail(IndexOutOfBounds) else Pass)
      ensures outcome.Pass? ==> Elements() == AddedIfNotPresent(old(Elements()), newMethod)
    {
      var i := 0;
      while i < length
        invariant 0 <= i <= length
        invariant newMethod !in methods[..i]
      {
        var m := methods[i];
        if m == newMethod {
          assert methods[..length][i] == newMethod;
          return Pass;
        }
        assert methods[..i + 1] == methods[..i] + [m];
        i := i + 1;
      }
      assert methods[..i] == Elements();
      outcome := Add(newMethod);
    }

    /** addAllIfNotPresent: addIfNotPresent for every non-null used slot of
        another MethodArray, in order. */
    method AddAllIfNotPresent(newMethods: MethodArray<C>) returns (outcome: Outcome)
      requires Valid() && newMethods.Valid() && newMethods != this && newMethods.methods != methods
      modifies this, methods
      ensures outcome.Pass? ==> Valid()
      ensures outcome.Fail? ==> length == old(length) + 1 && methods.Length == 0
      ensures outcome == (if old(methods.Length) == 0 && HasNonNull(old(newMethods.Elements()))
                          then Fail(IndexOutOfBounds) else Pass)
      ensures outcome.Pass? ==>
                Elements() == AllAddedIfNotPresent(old(Elements()), old(newMethods.Elements()))
    {
      var items := newMethods.methods[..newMethods.length];
      var i := 0;
      while i < |items|
        invariant 0 <= i <= |items|
        invariant Valid()
        invariant methods == old(methods) || fresh(methods)
        invariant methods.Length == 0 <==> old(methods.Length) == 0
        invariant old(methods.Length) == 0 ==> !HasNonNull(items[..i])
        invariant Elements() == AllAddedIfNotPresent(old(Elements()), items[..i])
      {
        var m := items[i];
        assert items[..i + 1][..i] == items[..i];
        assert items[..i + 1] == items[..i] + [m];
        if m.Some? {
          outcome := AddIfNotPresent(m);
          if outcome.Fail? {
            assert m in items;
            return;
          }
        }
        i := i + 1;
      }
      assert items[..i] == items;
      outcome := Pass;
    }

    method Length() returns (r: nat)
      ensures r == length
    {
      r := length;
    }

    /** get(i): the slot itself, which Java does not bound by length. */
    method Get(i: int) returns (r: Result<Option<Method<C>>>)
      ensures r == if 0 <= i < methods.Length then Ok(methods[i]) else Err(IndexOutOfBounds)
    {
      if 0 <= i < methods.Length {
        r := Ok(methods[i]);
      } else {
        r := Err(IndexOutOfBounds);
      }
    }

    /** removeByNameAndSignature: null out every used slot holding a method
        with the same name and signature as toRemove. */
    method RemoveByNameAndSignature(toRemove: Method<C>)
      requires Valid()
      modifies methods
      ensures Valid()
      ensures Elements() == NulledOut(old(Elements()), toRemove)
      ensures methods[length..] == old(methods[length..])
    {
      var i := 0;
      while i < length
        invariant 0 <= i <= length
        invariant forall j :: 0 <= j < i ==> methods[j] == NulledOut(old(methods[..length]), toRemove)[j]
        invariant forall j :: i <= j < methods.Length ==> methods[j] == old(methods[j])
      {
        var m := methods[i];
        if m.Some? {
          var sameParams := ArrayContentsEq(Some(m.value.parameterTypes), Some(toRemove.parameterTypes));
          if m.value.returnType == toRemove.returnType && m.value.name == toRemove.name && sameParams {
            methods[i] := None;
          }
        }
        i := i + 1;
      }
    }

    /** compactAndTrim: move the non-null used slots to the front, keeping their
        order, then trim the backing array to them. `length` is left as it was,
        so it exceeds the trimmed array exactly when some used slot was null. */
    method CompactAndTrim()
      requires Valid()
      modifies this, methods
      ensures length == old(length)
      ensures methods == old(methods) || fresh(methods)
      ensures methods[..] == Compacted(old(methods[..length]))
      ensures methods.Length <= length
      ensures Valid() <==> forall i :: 0 <= i < old(length) ==> old(methods[i]).Some?
    {
      var newPos := 0;
      var pos := 0;
      while pos < length
        invariant 0 <= newPos <= pos <= length
        invariant length == old(length) && Valid()
        invariant methods == old(methods)
        invariant newPos == |Compacted(old(methods[..pos]))|
        invariant methods[..newPos] == Compacted(old(methods[..pos]))
        invariant forall q :: pos <= q < methods.Length ==> methods[q] == old(methods[q])
      {
        var m := methods[pos];
        assert old(methods[..pos + 1]) == old(methods[..pos]) + [m];
        if m.Some? {
          if pos != newPos {
            methods[newPos] := m;
          }
          newPos := newPos + 1;
        }
        pos := pos + 1;
      }
      if newPos != methods.Length {
        methods := CopyOf(methods, newPos);
      }
      ghost var used := old(methods[..length]);
      CompactedSameLength(used);
      assert forall i :: 0 <= i < length ==> used[i] == old(methods[i]);
    }

    method GetArray() returns (r: array<Option<Method<C>>>)
      ensures r == methods
    {
      r := methods;
    }
  }

  /** Arrays.copyOf: a fresh array of length n holding a's first slots, padded
      with nulls. */
  method CopyOf<T>(a: array<Option<T>>, n: nat) returns (b: array<Option<T>>)
    ensures fresh(b) && b.Length == n
    ensures n <= a.Length ==> b[..] == a[..n]
    ensures n > a.Length ==> b[..] == a[..] + seq(n - a.Length, _ => None)
  {
    b := new Option<T>[n](_ => None);
    var i := 0;
    while i < n && i < a.Length
      invariant 0 <= i <= n
      invariant i <= a.Length
      invariant forall j :: 0 <= j < i ==> b[j] == a[j]
      invariant forall j :: i <= j < n ==> b[j] == None
    {
      b[i] := a[i];
      i := i + 1;
    }
  }

  // ---------------------------------------------------------------------------
  // Names
  // ---------------------------------------------------------------------------

  /** isAsciiDigit: only the ten characters '0' .. '9' (unlike Character.isDigit). */
  predicate IsAsciiDigit(c: char)
  {
    '0' <= c <= '9'
  }

  lemma IsAsciiDigitExactly(c: char)
    ensures IsAsciiDigit(c) <==> c in "0123456789"
  {
  }

  /** The length of the run of ASCII digits at the front of s. */
  function DigitRunLength(s: string): (n: nat)
    ensures n <= |s|
    ensures forall i :: 0 <= i < n ==> IsAsciiDigit(s[i])
    ensures n == |s| || !IsAsciiDigit(s[n])
  {
    if s == [] || !IsAsciiDigit(s[0]) then 0 else 1 + DigitRunLength(s[1..])
  }

  /** The digit run is determined by the string: digits d followed by a rest
      that does not start with a digit give exactly |d|. */
  lemma {:induction false} DigitRunOfDigitsThenRest(d: string, rest: string)
    requires forall i :: 0 <= i < |d| ==> IsAsciiDigit(d[i])
    requires rest == [] || !IsAsciiDigit(rest[0])
    ensures DigitRunLength(d + rest) == |d|
  {
    if d != [] {
      assert (d + rest)[1..] == d[1..] + rest;
      DigitRunOfDigitsThenRest(d[1..], rest);
    }
  }

  /** The end of getSimpleName: the simple binary name must start with '$';
      the '$' and the digits after it are removed (leaving the empty string
      for an anonymous class). */
  method StripDollarDigits(simpleName: string) returns (r: Result<string>)
    ensures |simpleName| < 1 || simpleName[0] != '$' ==> r == Err(MalformedName)
    ensures |simpleName| >= 1 && simpleName[0] == '$' ==>
              r == Ok(simpleName[1 + DigitRunLength(simpleName[1..])..])
  {
    var length := |simpleName|;
    if length < 1 || simpleName[0] != '$' {
      return Err(MalformedName);
    }
    var index := 1;
    while index < length && IsAsciiDigit(simpleName[index])
      invariant 1 <= index <= length
      invariant forall i :: 1 <= i < index ==> IsAsciiDigit(simpleName[i])
    {
      index := index + 1;
    }
    DigitRunOfDigitsThenRest(simpleName[1..index], simpleName[index..]);
    assert simpleName[1..] == simpleName[1..index] + simpleName[index..];
    r := Ok(simpleName[index..]);
  }

  /** The position of the last occurrence of c in s, or -1 (String.lastIndexOf). */
  function LastIndexOf(s: string, c: char): (r: int)
    ensures -1 <= r < |s|
    ensures r == -1 <==> c !in s
    ensures r >= 0 ==> s[r] == c && c !in s[r + 1..]
  {
    if s == [] then -1
    else if s[|s| - 1] == c then |s| - 1
    else LastIndexOf(s[..|s| - 1], c)
  }

  /** String.replace(from, to) on single characters. */
  function ReplaceChar(s: string, from: char, to: char): (r: string)
    ensures |r| == |s|
    ensures forall i :: 0 <= i < |s| ==> r[i] == if s[i] == from then to else s[i]
  {
    seq(|s|, i requires 0 <= i < |s| => if s[i] == from then to else s[i])
  }

  /** The name logic of resolveName, given the name of the (innermost
      component) class it is called on: null stays null; an absolute name
      loses its leading '/'; a relative name is prefixed with the class's
      package, dots turned into slashes. */
  function ResolveName(name: Option<string>, baseName: string): (r: Option<string>)
    ensures name.None? <==> r.None?
    ensures name.Some? && |name.value| > 0 && name.value[0] == '/' ==> r == Some(name.value[1..])
    ensures name.Some? && (|name.value| == 0 || name.value[0] != '/') && '.' !in baseName ==> r == name
  {
    if name.None? then name
    else if !(|name.value| > 0 && name.value[0] == '/') then
      var index := LastIndexOf(baseName, '.');
      if index != -1 then Some(ReplaceChar(baseName[..index], '.', '/') + "/" + name.value)
      else name
    else Some(name.value[1..])
  }

  /** A relative name resolved against a class "p.q.Simple" becomes "p/q/" + name:
      the package is everything before the last dot. */
  lemma ResolveRelativeName(name: string, package: string, simple: string)
    requires |name| == 0 || name[0] != '/'
    requires '.' !in simple
    ensures ResolveName(Some(name), package + "." + simple)
              == Some(ReplaceChar(package, '.', '/') + "/" + name)
  {
    var base := package + "." + simple;
    assert base[|package|] == '.';
    assert base[|package| + 1..] == simple;
    var index := LastIndexOf(base, '.');
    assert index == |package|;
    assert base[..index] == package;
  }

  /** A resolved relative name never keeps a '.' from the package part. */
  lemma ResolvedPackageHasNoDots(name: string, baseName: string)
    requires |name| == 0 || name[0] != '/'
    requires '.' in baseName
    ensures var r := ResolveName(Some(name), baseName);
            r.Some? && |r.value| > |name| && r.value[|r.value| - |name|..] == name
            && '.' !in r.value[..|r.value| - |name|]
  {
    var index := LastIndexOf(baseName, '.');
    var prefix := ReplaceChar(baseName[..index], '.', '/') + "/";
    var r := prefix + name;
    assert r[..|r| - |name|] == prefix;
    assert r[|r| - |name|..] == name;
  }

  // ---------------------------------------------------------------------------
  // argumentTypesToString
  // ---------------------------------------------------------------------------

  /** How one argument type is written: its name, or "null". */
  function TypeName(c: Option<string>): string {
    if c.None? then "null" else c.value
  }

  /** The names of the argument types separated by ", ". */
  function JoinedNames(cs: seq<Option<string>>): string
  {
    if cs == [] then ""
    else if |cs| == 1 then TypeName(cs[0])
    else JoinedNames(cs[..|cs| - 1]) + ", " + TypeName(cs[|cs| - 1])
  }

  /** JoinedNames read from the front: the first name, then ", " and the rest. */
  lemma {:induction false} JoinedNamesFront(c: Option<string>, cs: seq<Option<string>>)
    ensures JoinedNames([c] + cs) == TypeName(c) + (if cs == [] then "" else ", " + JoinedNames(cs))
    decreases |cs|
  {
    if |cs| > 1 {
      var init := cs[..|cs| - 1];
      assert ([c] + cs)[..|cs|] == [c] + init;
      JoinedNamesFront(c, init);
    } else if |cs| == 1 {
      assert ([c] + cs)[..1] == [c];
    }
  }

  /** argumentTypesToString: "(" then the argument type names joined by ", ",
      then ")"; a null array gives "()". */
  method ArgumentTypesToString(argTypes: Option<seq<Option<string>>>) returns (r: string)
    ensures r == "(" + JoinedNames(Elements(argTypes)) + ")"
  {
    var buf := "(";
    if argTypes.Some? {
      var types := argTypes.value;
      var i := 0;
      while i < |types|
        invariant 0 <= i <= |types|
        invariant buf == "(" + JoinedNames(types[..i])
      {
        if i > 0 {
          buf := buf + ", ";
        }
        var c := types[i];
        buf := buf + TypeName(c);
        assert types[..i + 1][..i] == types[..i];
        i := i + 1;
      }
      assert types[..i] == types;
    }
    buf := buf + ")";
    r := buf;
  }
}
