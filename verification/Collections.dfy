/** Enumerating a finite set. */
module Collections {

  method ListOf<T(==)>(elements: set<T>) returns (list: seq<T>)
    ensures forall x :: x in list <==> x in elements
  {
    list := [];
    var rest := elements;
    while rest != {}
      invariant rest <= elements && forall x :: x in list <==> x in elements - rest
    {
      var x :| x in rest;
      list, rest := list + [x], rest - {x};
    }
  }
}
