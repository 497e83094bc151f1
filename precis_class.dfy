/**
 * The PRECIS string classes of RFC 7564 section 4 (Precis::getStringClass,
 * Precis::isClass, Precis::isIdentifier, Precis::isFreeform): a string belongs
 * to a class when the derived property of every one of its characters is one
 * the class admits. An exception thrown by the cascade aborts the scan.
 */
module PrecisClass {
  import opened Wrappers
  import opened Unicode
  import opened Precis
  import opened PrecisCascade

  /** The closure handed to isClass. */
  datatype ClassTest = IdentifierTest | FreeformTest

  /** IdentifierClass admits PVALID; FreeformClass admits PVALID and FREE_PVAL. */
  predicate Admits(t: ClassTest, p: Property) {
    match t
    case IdentifierTest => p == PValid
    case FreeformTest => p == PValid || p == FreePVal
  }

  /** The derived property of every character of `s`, in order. */
  function Properties(u: Ucd, s: Text): (ps: seq<Result<Property, Failure>>)
    ensures |ps| == |s|
  {
    seq(|s|, i requires 0 <= i < |s| => PrecisProperty(u, s, i))
  }

  /** Entry `i` of `ps` is a property, and the class admits it. */
  predicate PassesAt(ps: seq<Result<Property, Failure>>, t: ClassTest, i: int)
    requires 0 <= i < |ps|
  {
    ps[i].Ok? && Admits(t, ps[i].value)
  }

  /** The first position from `k` on whose character the class refuses, or `|ps|` if there is none. */
  function FirstRefused(ps: seq<Result<Property, Failure>>, t: ClassTest, k: nat): (n: nat)
    requires k <= |ps|
    decreases |ps| - k
    ensures k <= n <= |ps|
    ensures forall j | k <= j < n :: PassesAt(ps, t, j)
    ensures n < |ps| ==> !PassesAt(ps, t, n)
  {
    if k == |ps| || !PassesAt(ps, t, k) then k else FirstRefused(ps, t, k + 1)
  }

  /** What isClass's loop still computes, given the properties, once it has reached position `k`. */
  function ClassFrom(ps: seq<Result<Property, Failure>>, t: ClassTest, k: nat): (r: Result<bool, Failure>)
    requires k <= |ps|
    decreases |ps| - k
    ensures r == Ok(true) <==> forall i | k <= i < |ps| :: PassesAt(ps, t, i)
    ensures var n := FirstRefused(ps, t, k);
            r == if n == |ps| then Ok(true) else if ps[n].Err? then Err(ps[n].error) else Ok(false)
  {
    if k == |ps| then Ok(true)
    else
      match ps[k]
      case Err(e) => assert !PassesAt(ps, t, k); Err(e)
      case Ok(p) => if !Admits(t, p) then assert !PassesAt(ps, t, k); Ok(false) else ClassFrom(ps, t, k + 1)
  }

  /** Membership of the whole string in the class tested by `t`. */
  function ClassMembership(u: Ucd, s: Text, t: ClassTest): Result<bool, Failure> {
    ClassFrom(Properties(u, s), t, 0)
  }

  /** isClass: returns false at the first character the test refuses. */
  method IsClass(u: Ucd, s: Text, t: ClassTest) returns (r: Result<bool, Failure>)
    ensures r == ClassMembership(u, s, t)
  {
    var pos := 0;
    while pos < |s|
      invariant 0 <= pos <= |s|
      invariant ClassFrom(Properties(u, s), t, pos) == ClassMembership(u, s, t)
    {
      var prop := GetPrecisProperty(u, s, pos);
      assert prop == Properties(u, s)[pos];
      if prop.Err? {
        return Err(prop.error);
      }
      if !Admits(t, prop.value) {
        return Ok(false);
      }
      pos := pos + 1;
    }
    return Ok(true);
  }

  method IsIdentifier(u: Ucd, s: Text) returns (r: Result<bool, Failure>)
    ensures r == ClassMembership(u, s, IdentifierTest)
  {
    r := IsClass(u, s, IdentifierTest);
  }

  method IsFreeform(u: Ucd, s: Text) returns (r: Result<bool, Failure>)
    ensures r == ClassMembership(u, s, FreeformTest)
  {
    r := IsClass(u, s, FreeformTest);
  }

  /**
   * What getStringClass's loop still computes from position `k`, given the
   * properties and the class found so far `acc`: NUL at the first UNASSIGNED
   * or DISALLOWED character, and FREEFORM once a FREE_PVAL one has been seen.
   */
  function StringClassFrom(ps: seq<Result<Property, Failure>>, k: nat, acc: StringClass): Result<StringClass, Failure>
    requires k <= |ps|
    decreases |ps| - k
  {
    if k == |ps| then Ok(acc)
    else
      match ps[k]
      case Err(e) => Err(e)
      case Ok(p) =>
        if p == Unassigned || p == Disallowed then Ok(Nul)
        else StringClassFrom(ps, k + 1, if p == FreePVal then Freeform else acc)
  }

  /** The string class of `s`. */
  function StringClassOf(u: Ucd, s: Text): Result<StringClass, Failure> {
    StringClassFrom(Properties(u, s), 0, Identifier)
  }

  /** getStringClass. */
  method GetStringClass(u: Ucd, s: Text) returns (r: Result<StringClass, Failure>)
    ensures r == StringClassOf(u, s)
  {
    var cls := Identifier;
    var pos := 0;
    while pos < |s|
      invariant 0 <= pos <= |s|
      invariant StringClassFrom(Properties(u, s), pos, cls) == StringClassOf(u, s)
    {
      var prop := GetPrecisProperty(u, s, pos);
      assert prop == Properties(u, s)[pos];
      if prop.Err? {
        return Err(prop.error);
      }
      if prop.value == Unassigned || prop.value == Disallowed {
        return Ok(Nul);
      }
      if prop.value == FreePVal {
        cls := Freeform;
      }
      pos := pos + 1;
    }
    return Ok(cls);
  }

  /**
   * IdentifierClass is a subclass of FreeformClass, and a scan for
   * IdentifierClass that throws reaches the same character, and throws the
   * same way, when it scans for FreeformClass.
   */
  lemma {:induction false} IdentifierImpliesFreeform(ps: seq<Result<Property, Failure>>, k: nat)
    requires k <= |ps|
    decreases |ps| - k
    ensures ClassFrom(ps, IdentifierTest, k) == Ok(true) ==> ClassFrom(ps, FreeformTest, k) == Ok(true)
    ensures ClassFrom(ps, IdentifierTest, k).Err? ==> ClassFrom(ps, FreeformTest, k) == ClassFrom(ps, IdentifierTest, k)
  {
    if k < |ps| && ps[k] == Ok(PValid) {
      IdentifierImpliesFreeform(ps, k + 1);
    }
  }

  /** Once FREEFORM, the class found by the scan is never IDENTIFIER again. */
  lemma {:induction false} FreeformStaysFreeform(ps: seq<Result<Property, Failure>>, k: nat)
    requires k <= |ps|
    decreases |ps| - k
    ensures StringClassFrom(ps, k, Freeform) != Ok(Identifier)
  {
    if k < |ps| && ps[k].Ok? {
      FreeformStaysFreeform(ps, k + 1);
    }
  }

  /** The scan of getStringClass from `k`, against the two membership scans from `k`. */
  lemma {:induction false} StringClassFromMembership(ps: seq<Result<Property, Failure>>, k: nat, acc: StringClass)
    requires k <= |ps| && acc != Nul
    decreases |ps| - k
    ensures StringClassFrom(ps, k, acc).Err? <==> ClassFrom(ps, FreeformTest, k).Err?
    ensures StringClassFrom(ps, k, acc).Err? ==> StringClassFrom(ps, k, acc).error == ClassFrom(ps, FreeformTest, k).error
    ensures StringClassFrom(ps, k, acc) == Ok(Nul) <==> ClassFrom(ps, FreeformTest, k) == Ok(false)
    ensures StringClassFrom(ps, k, acc) == Ok(Identifier) <==>
              acc == Identifier && ClassFrom(ps, IdentifierTest, k) == Ok(true)
  {
    if k < |ps| && ps[k].Ok? {
      var p := ps[k].value;
      if p == PValid || p == FreePVal {
        StringClassFromMembership(ps, k + 1, if p == FreePVal then Freeform else acc);
        if p == FreePVal {
          FreeformStaysFreeform(ps, k + 1);
        }
      }
    }
  }

  /**
   * getStringClass agrees with isIdentifier and isFreeform: IDENTIFIER exactly
   * for identifiers, FREEFORM exactly for freeform strings that are not
   * identifiers, NUL exactly for strings outside FreeformClass, and it throws
   * exactly when isFreeform throws, with the same exception.
   */
  lemma StringClassMatchesMembership(u: Ucd, s: Text)
    ensures StringClassOf(u, s) == Ok(Identifier) <==> ClassMembership(u, s, IdentifierTest) == Ok(true)
    ensures StringClassOf(u, s) == Ok(Freeform) <==>
              ClassMembership(u, s, FreeformTest) == Ok(true) && ClassMembership(u, s, IdentifierTest) != Ok(true)
    ensures StringClassOf(u, s) == Ok(Nul) <==> ClassMembership(u, s, FreeformTest) == Ok(false)
    ensures StringClassOf(u, s).Err? <==> ClassMembership(u, s, FreeformTest).Err?
    ensures StringClassOf(u, s).Err? ==> StringClassOf(u, s).error == ClassMembership(u, s, FreeformTest).error
  {
    ScanMatchesMembership(Properties(u, s));
  }

  lemma ScanMatchesMembership(ps: seq<Result<Property, Failure>>)
    ensures StringClassFrom(ps, 0, Identifier) == Ok(Identifier) <==> ClassFrom(ps, IdentifierTest, 0) == Ok(true)
    ensures StringClassFrom(ps, 0, Identifier) == Ok(Freeform) <==>
              ClassFrom(ps, FreeformTest, 0) == Ok(true) && ClassFrom(ps, IdentifierTest, 0) != Ok(true)
    ensures StringClassFrom(ps, 0, Identifier) == Ok(Nul) <==> ClassFrom(ps, FreeformTest, 0) == Ok(false)
    ensures StringClassFrom(ps, 0, Identifier).Err? <==> ClassFrom(ps, FreeformTest, 0).Err?
    ensures StringClassFrom(ps, 0, Identifier).Err? ==>
              StringClassFrom(ps, 0, Identifier).error == ClassFrom(ps, FreeformTest, 0).error
  {
    StringClassFromMembership(ps, 0, Identifier);
    IdentifierImpliesFreeform(ps, 0);
    var f := ClassFrom(ps, FreeformTest, 0);
    var sc := StringClassFrom(ps, 0, Identifier);
    if sc == Ok(Freeform) {
      assert f.Ok? && f != Ok(false);
    }
    if f == Ok(true) && ClassFrom(ps, IdentifierTest, 0) != Ok(true) {
      assert sc.Ok? && sc != Ok(Nul) && sc != Ok(Identifier);
      match sc.value
      case Freeform =>
      case Nul =>
      case Identifier =>
    }
  }

  /** With every property known, one refused character makes the scan answer false. */
  lemma RefusedWithoutThrow(ps: seq<Result<Property, Failure>>, t: ClassTest, i: nat)
    requires forall j | 0 <= j < |ps| :: ps[j].Ok?
    requires i < |ps| && !Admits(t, ps[i].value)
    ensures ClassFrom(ps, t, 0) == Ok(false)
  {
    var n := FirstRefused(ps, t, 0);
    assert n <= i by {
      assert !PassesAt(ps, t, i);
    }
  }

  /** A string without join controls has a property at every position: the scans never throw. */
  lemma NoJoinControlNoThrow(u: Ucd, s: Text)
    requires forall j | 0 <= j < |s| :: s[j] != ZWNJ && s[j] != ZWJ
    ensures forall j | 0 <= j < |s| :: Properties(u, s)[j].Ok?
    ensures ClassMembership(u, s, FreeformTest).Ok? && ClassMembership(u, s, IdentifierTest).Ok?
  {
    forall j | 0 <= j < |s|
      ensures Properties(u, s)[j].Ok?
    {
      PropertyThrowsIff(u, s, j);
    }
    var ps := Properties(u, s);
    var nf := FirstRefused(ps, FreeformTest, 0);
    var ni := FirstRefused(ps, IdentifierTest, 0);
    assert nf < |ps| ==> ps[nf].Ok?;
    assert ni < |ps| ==> ps[ni].Ok?;
  }

  /** A string without join controls that has one character the class refuses is not in the class. */
  lemma RefusedCharacter(u: Ucd, s: Text, t: ClassTest, i: nat)
    requires forall j | 0 <= j < |s| :: s[j] != ZWNJ && s[j] != ZWJ
    requires i < |s| && !(PrecisProperty(u, s, i).Ok? && Admits(t, PrecisProperty(u, s, i).value))
    ensures ClassMembership(u, s, t) == Ok(false)
  {
    NoJoinControlNoThrow(u, s);
    RefusedWithoutThrow(Properties(u, s), t, i);
  }
}
