/** Concrete cases of the grid's computations on small lists. */
module Scenarios {
  import opened Outcomes
  import opened Text
  import opened Sequences
  import opened Users

  /** A fetched "Jane Doe" of company "Acme" becomes the row Jane / Doe / Acme. */
  lemma JaneDoeIsMapped()
    ensures MapUser(RawUser(1, "Jane Doe", "j@x.com", Some("Acme")))
         == User(1, "Jane", "Doe", "j@x.com", "Acme")
  {
    TwoWordName(RawUser(1, "Jane Doe", "j@x.com", Some("Acme")), "Jane", "Doe");
  }

  /** A name made of two space-free words separated by one space maps to
      those two words. */
  lemma TwoWordName(raw: RawUser, first: string, last: string)
    requires raw.name == first + " " + last
    requires first != [] && ' ' !in first && ' ' !in last
    ensures MapUser(raw).firstName == first && MapUser(raw).lastName == last
  {
    var name := raw.name;
    assert name[..|first|] == first && name[|first|] == ' ' && name[|first| + 1..] == last;
    SplitAtFirst(name, ' ', |first|);
    assert Split(last, ' ') == [last];
    assert Split(name, ' ') == [first, last];
    assert [first, last][1..] == [last];
  }

  /** A one-word name is the first name and leaves the last name empty; no
      company gives "N/A". */
  lemma PlatoIsMapped()
    ensures MapUser(RawUser(7, "Plato", "p@x.org", None)) == User(7, "Plato", "", "p@x.org", "N/A")
  {
    assert Split("Plato", ' ') == ["Plato"];
  }

  /** With 5 the largest id, an added user gets id 6. */
  lemma AddAfterFive(values: FormValues)
    ensures NewUser([User(3, "A", "B", "c", "D"), User(5, "E", "F", "g", "H")], values).id == 6
  {
  }

  const Jane := User(1, "Jane", "Doe", "j@x.com", "Acme")
  const Ada := User(2, "Ada", "Lovelace", "a@y.org", "Engines")

  /** Searching "acme" finds the one row whose department is "Acme". */
  lemma SearchAcme()
    ensures SearchFilter([Jane, Ada], "acme") == [Jane]
  {
    JaneMatchesAcme();
    AdaMissesAcme();
    SearchOfPair(Jane, Ada, "acme");
  }

  lemma SearchOfPair(a: User, b: User, needle: string)
    requires Matches(a, needle) && !Matches(b, needle)
    ensures SearchFilter([a, b], needle) == [a]
  {
    var p := MatcherFor(needle);
    assert p(a) && !p(b);
    assert [a, b][1..] == [b] && [b][1..] == [];
    assert Filter([b], p) == [];
    assert Filter([a, b], p) == [a] + Filter([b], p);
  }

  lemma JaneMatchesAcme()
    ensures Matches(Jane, "acme")
  {
    assert Lower("Acme") == "acme";
    assert StartsWith("acme", "acme");
  }

  /** No field of Ada has the letter 'm' in either case. */
  lemma AdaMissesAcme()
    ensures !Matches(Ada, "acme")
  {
    MissingMNeverMatchesAcme(Ada);
  }

  /** A user none of whose fields has an 'm' or an 'M' does not match "acme". */
  lemma MissingMNeverMatchesAcme(u: User)
    requires 'm' !in u.firstName && 'M' !in u.firstName
    requires 'm' !in u.lastName && 'M' !in u.lastName
    requires 'm' !in u.email && 'M' !in u.email
    requires 'm' !in u.department && 'M' !in u.department
    ensures !Matches(u, "acme")
  {
    assert 'm' in "acme";
    MissingCharNotContained(Lower(u.firstName), "acme", 'm');
    MissingCharNotContained(Lower(u.lastName), "acme", 'm');
    MissingCharNotContained(Lower(u.email), "acme", 'm');
    MissingCharNotContained(Lower(u.department), "acme", 'm');
  }

  /** After a successful edit the view is the whole list, not the search
      result: with "acme" searched and Jane edited, Ada is shown although she
      does not match. */
  lemma EditIgnoresSearch()
    ensures var edited := ApplyEdit([Jane, Ada], 1, FormValues("Jane", "Doe", "j@x.com", "Acme"));
      edited == [Jane, Ada] && SearchFilter(edited, "acme") != edited
  {
    SearchAcme();
  }
}
