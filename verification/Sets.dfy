/** Facts about finite sets that several modules use. */
module Sets {

  lemma SomeElement<T>(s: set<T>)
    requires s != {}
    ensures exists x :: x in s
  {
  }

  /** Some element of a set that has one. */
  ghost function Any<T>(s: set<T>): (x: T)
    requires s != {}
    ensures x in s
  {
    SomeElement(s);
    var x :| x in s;
    x
  }

  lemma SomeInt(s: set<int>)
    requires s != {}
    ensures exists x :: x in s
  {
    var x := Any(s);
    assert x in s;
  }

  lemma SubsetOfSameSize<T>(a: set<T>, b: set<T>)
    requires a <= b && |a| == |b|
    ensures a == b
  {
    assert b == a + (b - a);
    assert |b| == |a| + |b - a|;
  }

  lemma SubsetSize<T>(a: set<T>, b: set<T>)
    requires a <= b
    ensures |a| <= |b|
  {
    assert b == a + (b - a);
    assert |b| == |a| + |b - a|;
  }
}
