/** The product table as the handlers read it, and the `orderBy` orderings
    the database applies to it. */
module Catalog {
  import opened Wrappers
  import Strings

  /** A product row. Prices are integer cents; `status` is the stored text
      ('active' or 'inactive'); `createdAt` is a timestamp. */
  datatype Product = Product(
    id: nat,
    name: string,
    description: Option<string>,
    category: Option<string>,
    price: int,
    stock: int,
    status: string,
    createdAt: int)

  predicate IsActive(p: Product)
  {
    p.status == "active"
  }

  /** No two rows share an id (the table's primary key). */
  ghost predicate UniqueIds(ps: seq<Product>)
  {
    forall i, j | 0 <= i < j < |ps| :: ps[i].id != ps[j].id
  }

  /** `findUnique({ where: { id } })`: the row with that id, if any. */
  function Find(ps: seq<Product>, id: nat): (r: Option<Product>)
    ensures r.Some? ==> r.value in ps && r.value.id == id
    ensures r.None? <==> forall i | 0 <= i < |ps| :: ps[i].id != id
  {
    if |ps| == 0 then None
    else if ps[0].id == id then Some(ps[0])
    else Find(ps[1..], id)
  }

  /** With unique ids, the row found is the one row carrying that id. */
  lemma FindUnique(ps: seq<Product>, i: nat)
    requires UniqueIds(ps) && i < |ps|
    ensures Find(ps, ps[i].id) == Some(ps[i])
  {
    if i > 0 && ps[0].id != ps[i].id {
      FindUnique(ps[1..], i - 1);
    }
  }

  datatype Field = Name | Price | CreatedAt
  datatype Direction = Asc | Desc

  /** A Prisma `orderBy` clause on one field. */
  datatype OrderBy = OrderBy(field: Field, dir: Direction)

  /** `a` is not greater than `b` on the field. Names compare by code units;
      the database's case-insensitive collation is not part of this model. */
  predicate KeyLe(f: Field, a: Product, b: Product)
  {
    match f
    case Name => Strings.StrLe(a.name, b.name)
    case Price => a.price <= b.price
    case CreatedAt => a.createdAt <= b.createdAt
  }

  /** `a` may be listed before `b` under the ordering. */
  predicate Precedes(o: OrderBy, a: Product, b: Product)
  {
    if o.dir == Asc then KeyLe(o.field, a, b) else KeyLe(o.field, b, a)
  }

  lemma PrecedesTotal(o: OrderBy, a: Product, b: Product)
    ensures Precedes(o, a, b) || Precedes(o, b, a)
  {
    if o.field == Name {
      Strings.StrLeTotal(a.name, b.name);
    }
  }

  lemma PrecedesTransitive(o: OrderBy, a: Product, b: Product, c: Product)
    requires Precedes(o, a, b) && Precedes(o, b, c)
    ensures Precedes(o, a, c)
  {
    if o.field == Name {
      if o.dir == Asc {
        Strings.StrLeTransitive(a.name, b.name, c.name);
      } else {
        Strings.StrLeTransitive(c.name, b.name, a.name);
      }
    }
  }

  ghost predicate SortedBy(o: OrderBy, ps: seq<Product>)
  {
    forall i, j | 0 <= i < j < |ps| :: Precedes(o, ps[i], ps[j])
  }

  /** Inserts `x` into a sorted list ahead of the first element it precedes. */
  function Insert(o: OrderBy, x: Product, s: seq<Product>): (r: seq<Product>)
    requires SortedBy(o, s)
    ensures SortedBy(o, r)
    ensures multiset(r) == multiset(s) + multiset{x}
  {
    if |s| == 0 then [x]
    else if Precedes(o, x, s[0]) then
      assert forall j | 0 <= j < |s| :: Precedes(o, x, s[j]) by {
        forall j | 0 <= j < |s| ensures Precedes(o, x, s[j]) {
          if j > 0 { PrecedesTransitive(o, x, s[0], s[j]); }
        }
      }
      [x] + s
    else
      PrecedesTotal(o, x, s[0]);
      var rest := Insert(o, x, s[1..]);
      assert s == [s[0]] + s[1..];
      assert forall y | y in multiset(rest) :: Precedes(o, s[0], y) by {
        forall y | y in multiset(rest) ensures Precedes(o, s[0], y) {
          assert y == x || y in multiset(s[1..]);
          if y != x {
            var j :| 0 <= j < |s[1..]| && s[1..][j] == y;
            assert y == s[j + 1];
          }
        }
      }
      [s[0]] + rest
  }

  /** The rows of `ps` listed in the order `o` asks for: a permutation of
      `ps` that is sorted. The database promises no order among rows equal
      on the key, and neither does this definition. */
  function Sort(o: OrderBy, ps: seq<Product>): (r: seq<Product>)
    ensures SortedBy(o, r)
    ensures multiset(r) == multiset(ps)
    ensures |r| == |ps|
  {
    if |ps| == 0 then []
    else
      var r := Insert(o, ps[|ps| - 1], Sort(o, ps[..|ps| - 1]));
      assert ps == ps[..|ps| - 1] + [ps[|ps| - 1]];
      assert |r| == |multiset(r)|;
      r
  }
}
