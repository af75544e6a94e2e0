/** A member of staff: an immutable pair of names. The Java class defines no
    equals, so two members are the same only when they are the same object;
    a Dafny class has exactly that reference equality. */
module StaffMembers {
  import opened Lexical

  class StaffMember {
    const givenName: string
    const familyName: string

    constructor (firstName: string, lastName: string)
      ensures givenName == firstName && familyName == lastName
    {
      givenName := firstName;
      familyName := lastName;
    }

    /** The ordering of compareTo: the family name and the given name
        concatenated into one string and compared lexically. */
    function CompareTo(other: StaffMember): (r: int) {
      Compare(Key(this), Key(other))
    }

    /** The form the per-person rosters print: "family, given". */
    function ReversedName(): (r: string) {
      familyName + ", " + givenName
    }

    /** The conventional form, "given family", used for listing and lookup. */
    function ToString(): (r: string) {
      givenName + " " + familyName
    }
  }

  /** The string compareTo orders staff by. */
  function Key(m: StaffMember): (r: string) {
    m.familyName + m.givenName
  }

  /** The sign of a.CompareTo(b) is the opposite of b.CompareTo(a); in fact
      the two results are exact negations. */
  lemma CompareToAntisymmetric(a: StaffMember, b: StaffMember)
    ensures a.CompareTo(b) == -b.CompareTo(a)
  {
    CompareAntisymmetric(Key(a), Key(b));
  }

  /** compareTo is zero exactly when the concatenated names are equal, which
      covers members with the same names. */
  lemma CompareToZeroIff(a: StaffMember, b: StaffMember)
    ensures a.CompareTo(b) == 0 <==> a.familyName + a.givenName == b.familyName + b.givenName
    ensures a.givenName == b.givenName && a.familyName == b.familyName ==> a.CompareTo(b) == 0
  {
    CompareZeroIff(Key(a), Key(b));
  }

  /** The concatenation does not separate the names: family "Lee" with given
      "Ann" and family "Le" with given "eAnn" compare equal. */
  lemma ConcatenationConflatesNames(a: StaffMember, b: StaffMember)
    requires a.givenName == "Ann" && a.familyName == "Lee"
    requires b.givenName == "eAnn" && b.familyName == "Le"
    ensures a.CompareTo(b) == 0 && a.familyName != b.familyName
  {
    assert Key(a) == "LeeAnn" == Key(b);
  }

  /** The conventional rendering splits back into its two names when the
      given name's length is known: given name, one space, family name. */
  lemma ToStringParts(m: StaffMember)
    ensures |m.ToString()| == |m.givenName| + 1 + |m.familyName|
    ensures m.ToString()[..|m.givenName|] == m.givenName
    ensures m.ToString()[|m.givenName|] == ' '
    ensures m.ToString()[|m.givenName| + 1..] == m.familyName
  {
    var s := m.ToString();
    assert s == m.givenName + (" " + m.familyName);
  }

  /** The reversed rendering is the family name, a comma and a space, and then
      the given name. */
  lemma ReversedNameParts(m: StaffMember)
    ensures |m.ReversedName()| == |m.familyName| + 2 + |m.givenName|
    ensures m.ReversedName()[..|m.familyName|] == m.familyName
    ensures m.ReversedName()[|m.familyName|..|m.familyName| + 2] == ", "
    ensures m.ReversedName()[|m.familyName| + 2..] == m.givenName
  {
    var s := m.ReversedName();
    assert s == m.familyName + (", " + m.givenName);
  }

  /** Two members built from the same names are distinct objects that
      compareTo nevertheless calls equal: without an equals override, list
      membership tells them apart. */
  method SameNamesDistinctMembers(given: string, family: string) returns (a: StaffMember, b: StaffMember)
    ensures a != b
    ensures a.givenName == b.givenName == given && a.familyName == b.familyName == family
    ensures a.CompareTo(b) == 0
  {
    a := new StaffMember(given, family);
    b := new StaffMember(given, family);
  }
}
