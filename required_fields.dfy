/**
 * The onboarding handler's required-field check and the `missingFields` list
 * it reports: each of the five names is replaced by `false` when its field is
 * present, and `.filter(Boolean)` drops those. Here `None` plays `false`.
 */
module RequiredFields {
  import opened Values
  import opened Users

  /** The required onboarding fields, in the order the handler checks them. */
  const Required: seq<string> := ["fullName", "bio", "nativeLanguage", "learningLanguage", "location"]

  /** The body field with one of the required names. */
  function FieldNamed(body: Fields, name: string): Option<string>
  {
    if name == "fullName" then body.fullName
    else if name == "bio" then body.bio
    else if name == "nativeLanguage" then body.nativeLanguage
    else if name == "learningLanguage" then body.learningLanguage
    else if name == "location" then body.location
    else None
  }

  /** All five required fields are truthy: the handler goes on to the update. */
  predicate AllPresent(body: Fields)
  {
    Truthy(body.fullName) && Truthy(body.bio) && Truthy(body.nativeLanguage)
    && Truthy(body.learningLanguage) && Truthy(body.location)
  }

  /** `!field && name`: the name when the field is falsy, nothing otherwise. */
  function FlagIfMissing(field: Option<string>, name: string): Option<string>
  {
    if Truthy(field) then None else Some(name)
  }

  /** `.filter(Boolean)`: the names, in order, with the gaps dropped. */
  function Somes<T>(xs: seq<Option<T>>): seq<T>
  {
    if xs == [] then []
    else if xs[0].Some? then [xs[0].value] + Somes(xs[1..])
    else Somes(xs[1..])
  }

  /** The `missingFields` array of the 401 reply. */
  function MissingFields(body: Fields): seq<string>
  {
    Somes([
      FlagIfMissing(body.fullName, "fullName"),
      FlagIfMissing(body.bio, "bio"),
      FlagIfMissing(body.nativeLanguage, "nativeLanguage"),
      FlagIfMissing(body.learningLanguage, "learningLanguage"),
      FlagIfMissing(body.location, "location")])
  }

  /** `r` is `ys` with some elements left out and the rest kept in their order. */
  predicate IsSubsequence<T(==)>(r: seq<T>, ys: seq<T>)
  {
    || r == []
    || (ys != [] && ((r[0] == ys[0] && IsSubsequence(r[1..], ys[1..])) || IsSubsequence(r, ys[1..])))
  }

  /** No element occurs twice. */
  predicate Distinct<T(==)>(ys: seq<T>)
  {
    forall i, j :: 0 <= i < j < |ys| ==> ys[i] != ys[j]
  }

  /** `.filter(Boolean)` keeps exactly the names that were flagged. */
  lemma {:induction false} SomesMembers<T>(xs: seq<Option<T>>, x: T)
    ensures x in Somes(xs) <==> Some(x) in xs
  {
    if xs != [] {
      SomesMembers(xs[1..], x);
      assert xs == [xs[0]] + xs[1..];
    }
  }

  /**
   * Dropping the gaps of a list whose entries are gaps or the element of `ys`
   * at the same position leaves a subsequence of `ys`.
   */
  lemma {:induction false} SomesIsSubsequence<T>(xs: seq<Option<T>>, ys: seq<T>)
    requires |xs| == |ys|
    requires forall i :: 0 <= i < |xs| ==> xs[i] == None || xs[i] == Some(ys[i])
    ensures IsSubsequence(Somes(xs), ys)
  {
    if xs != [] {
      SomesIsSubsequence(xs[1..], ys[1..]);
      if xs[0].Some? {
        assert Somes(xs) == [ys[0]] + Somes(xs[1..]);
      }
    }
  }

  /** Every element of a subsequence of `ys` occurs in `ys`. */
  lemma {:induction false} SubsequenceMembers<T>(r: seq<T>, ys: seq<T>)
    requires IsSubsequence(r, ys)
    ensures forall x :: x in r ==> x in ys
  {
    if r != [] {
      if r[0] == ys[0] && IsSubsequence(r[1..], ys[1..]) {
        SubsequenceMembers(r[1..], ys[1..]);
        assert r == [r[0]] + r[1..];
      } else {
        SubsequenceMembers(r, ys[1..]);
      }
    }
  }

  /** In a duplicate-free list the head does not occur again. */
  lemma TailExcludesHead<T>(ys: seq<T>, x: T)
    requires Distinct(ys) && ys != [] && x in ys[1..]
    ensures x != ys[0]
  {
    var j :| 0 <= j < |ys| - 1 && ys[1..][j] == x;
    assert ys[j + 1] == x;
  }

  /** A subsequence of a duplicate-free `ys` that holds `ys[0]` starts with it. */
  lemma HeadOf<T>(r: seq<T>, ys: seq<T>)
    requires Distinct(ys) && ys != [] && IsSubsequence(r, ys) && ys[0] in r
    ensures r != [] && r[0] == ys[0] && IsSubsequence(r[1..], ys[1..])
  {
    if !(r[0] == ys[0] && IsSubsequence(r[1..], ys[1..])) {
      SubsequenceMembers(r, ys[1..]);
      TailExcludesHead(ys, ys[0]);
      assert false;
    }
  }

  /**
   * Two subsequences of a duplicate-free list with the same elements are
   * equal: the elements alone fix the order.
   */
  lemma {:induction false} SubsequenceDetermined<T>(r1: seq<T>, r2: seq<T>, ys: seq<T>)
    requires Distinct(ys) && IsSubsequence(r1, ys) && IsSubsequence(r2, ys)
    requires forall x :: x in r1 <==> x in r2
    ensures r1 == r2
    decreases |ys|
  {
    if ys == [] {
    } else if ys[0] in r1 {
      HeadOf(r1, ys);
      HeadOf(r2, ys);
      SubsequenceMembers(r1[1..], ys[1..]);
      SubsequenceMembers(r2[1..], ys[1..]);
      forall x
        ensures x in r1[1..] <==> x in r2[1..]
      {
        assert r1 == [r1[0]] + r1[1..];
        assert r2 == [r2[0]] + r2[1..];
        if x in r1[1..] {
          assert x in ys[1..];
          TailExcludesHead(ys, x);
          assert x in r2 && x != r2[0];
        }
        if x in r2[1..] {
          assert x in ys[1..];
          TailExcludesHead(ys, x);
          assert x in r1 && x != r1[0];
        }
      }
      SubsequenceDetermined(r1[1..], r2[1..], ys[1..]);
      assert r1 == [r1[0]] + r1[1..];
      assert r2 == [r2[0]] + r2[1..];
    } else {
      SubsequenceDetermined(r1, r2, ys[1..]);
    }
  }

  /**
   * `missingFields` names exactly the falsy required fields, in the order
   * fullName, bio, nativeLanguage, learningLanguage, location, and is empty
   * exactly when the handler lets the request through.
   */
  lemma MissingFieldsExact(body: Fields)
    ensures IsSubsequence(MissingFields(body), Required)
    ensures forall name :: name in MissingFields(body) <==> name in Required && !Truthy(FieldNamed(body, name))
    ensures MissingFields(body) == [] <==> AllPresent(body)
  {
    var xs := [
      FlagIfMissing(body.fullName, "fullName"),
      FlagIfMissing(body.bio, "bio"),
      FlagIfMissing(body.nativeLanguage, "nativeLanguage"),
      FlagIfMissing(body.learningLanguage, "learningLanguage"),
      FlagIfMissing(body.location, "location")];
    SomesIsSubsequence(xs, Required);
    forall name
      ensures name in MissingFields(body) <==> name in Required && !Truthy(FieldNamed(body, name))
    {
      SomesMembers(xs, name);
    }
    if !AllPresent(body) {
      var name :=
        if !Truthy(body.fullName) then "fullName"
        else if !Truthy(body.bio) then "bio"
        else if !Truthy(body.nativeLanguage) then "nativeLanguage"
        else if !Truthy(body.learningLanguage) then "learningLanguage"
        else "location";
      assert name in Required && !Truthy(FieldNamed(body, name));
      assert name in MissingFields(body);
    } else {
      assert xs == [None, None, None, None, None];
      assert Somes(xs) == Somes(xs[1..]) == Somes(xs[2..]) == Somes(xs[3..]) == Somes(xs[4..]) == Somes(xs[5..]) == [];
    }
  }

  /** Any list that names exactly the falsy required fields in the check order is `missingFields`. */
  lemma MissingFieldsDetermined(body: Fields, r: seq<string>)
    requires IsSubsequence(r, Required)
    requires forall name :: name in r <==> name in Required && !Truthy(FieldNamed(body, name))
    ensures r == MissingFields(body)
  {
    MissingFieldsExact(body);
    assert Distinct(Required);
    SubsequenceDetermined(r, MissingFields(body), Required);
  }
}
