/** Three-way comparison, total preorders and lexicographic order. */
module Order {

  datatype Ordering = Less | Equal | Greater

  function Flip(o: Ordering): Ordering {
    match o
    case Less => Greater
    case Equal => Equal
    case Greater => Less
  }

  /** The transitivity law of a three-way comparison, for one triple of results. */
  predicate Composes(ab: Ordering, bc: Ordering, ac: Ordering) {
    && (ab == Equal ==> ac == bc)
    && (bc == Equal ==> ac == ab)
    && (ab == bc ==> ac == ab)
  }

  /** A total preorder: elements that compare Equal need not be the same value. */
  ghost predicate TotalPreorder<T(!new)>(cmp: (T, T) -> Ordering) {
    && (forall a :: cmp(a, a) == Equal)
    && (forall a, b :: cmp(b, a) == Flip(cmp(a, b)))
    && (forall a, b, c {:trigger cmp(a, b), cmp(b, c)} :: Composes(cmp(a, b), cmp(b, c), cmp(a, c)))
  }

  /** Element by element; a proper prefix comes first. */
  function Lex<T>(cmp: (T, T) -> Ordering, a: seq<T>, b: seq<T>): Ordering {
    if a == [] || b == [] then
      if |a| < |b| then Less else if |a| == |b| then Equal else Greater
    else
      var head := cmp(a[0], b[0]);
      if head != Equal then head else Lex(cmp, a[1..], b[1..])
  }

  lemma {:induction false} LexFlips<T(!new)>(cmp: (T, T) -> Ordering, a: seq<T>, b: seq<T>)
    requires TotalPreorder(cmp)
    ensures Lex(cmp, b, a) == Flip(Lex(cmp, a, b))
  {
    if a != [] && b != [] {
      LexFlips(cmp, a[1..], b[1..]);
    }
  }

  lemma {:induction false} LexComposes<T(!new)>(cmp: (T, T) -> Ordering, a: seq<T>, b: seq<T>, c: seq<T>)
    requires TotalPreorder(cmp)
    ensures Composes(Lex(cmp, a, b), Lex(cmp, b, c), Lex(cmp, a, c))
  {
    if a != [] && b != [] && c != [] {
      assert Composes(cmp(a[0], b[0]), cmp(b[0], c[0]), cmp(a[0], c[0]));
      LexComposes(cmp, a[1..], b[1..], c[1..]);
    }
  }

  lemma {:induction false} LexReflexive<T(!new)>(cmp: (T, T) -> Ordering, a: seq<T>)
    requires TotalPreorder(cmp)
    ensures Lex(cmp, a, a) == Equal
  {
    if a != [] {
      LexReflexive(cmp, a[1..]);
    }
  }

  /** When only identical elements compare Equal, only identical sequences do. */
  lemma {:induction false} LexEqual<T(!new)>(cmp: (T, T) -> Ordering, a: seq<T>, b: seq<T>)
    requires forall x, y :: cmp(x, y) == Equal ==> x == y
    requires Lex(cmp, a, b) == Equal
    ensures a == b
  {
    if a != [] && b != [] {
      LexEqual(cmp, a[1..], b[1..]);
      assert a == [a[0]] + a[1..] && b == [b[0]] + b[1..];
    }
  }

  function CompareChar(a: char, b: char): Ordering {
    if a < b then Less else if a == b then Equal else Greater
  }

  function CompareNat(a: nat, b: nat): Ordering {
    if a < b then Less else if a == b then Equal else Greater
  }

  /** `std::string::compare`: characters in order, shorter prefix first. */
  function CompareText(a: string, b: string): Ordering {
    Lex(CompareChar, a, b)
  }

  lemma CompareTextIsTotal()
    ensures TotalPreorder(CompareText)
    ensures forall a, b :: CompareText(a, b) == Equal <==> a == b
  {
    forall a: string, b: string
      ensures CompareText(a, a) == Equal
      ensures CompareText(b, a) == Flip(CompareText(a, b))
      ensures CompareText(a, b) == Equal ==> a == b
    {
      LexReflexive(CompareChar, a);
      LexFlips(CompareChar, a, b);
      if CompareText(a, b) == Equal {
        LexEqual(CompareChar, a, b);
      }
    }
    forall a: string, b: string, c: string
      ensures Composes(CompareText(a, b), CompareText(b, c), CompareText(a, c))
    {
      LexComposes(CompareChar, a, b, c);
    }
  }
}
