/** The nineteen books of the seeding script, as concrete data for the filter,
    paging and option-list views. The store assigns identifiers on creation;
    "1" to "19" stand for them here. */
module SeedData {
  import opened Text
  import opened ArrayOps
  import opened Catalog
  import opened Views

  const Gatsby := Book("1", "The Great Gatsby", "F. Scott Fitzgerald", "Fiction", 1925, "Available")
  const Mockingbird := Book("2", "To Kill a Mockingbird", "Harper Lee", "Fiction", 1960, "Issued")
  const NineteenEightyFour := Book("3", "1984", "George Orwell", "Dystopian", 1949, "Available")
  const PrideAndPrejudice := Book("4", "Pride and Prejudice", "Jane Austen", "Romance", 1813, "Available")
  const Catcher := Book("5", "The Catcher in the Rye", "J.D. Salinger", "Fiction", 1951, "Issued")
  const LordOfTheFlies := Book("6", "Lord of the Flies", "William Golding", "Adventure", 1954, "Available")
  const Hobbit := Book("7", "The Hobbit", "J.R.R. Tolkien", "Fantasy", 1937, "Available")
  const Fahrenheit := Book("8", "Fahrenheit 451", "Ray Bradbury", "Science Fiction", 1953, "Issued")
  const JaneEyre := Book("9", "Jane Eyre", "Charlotte Bronte", "Romance", 1847, "Available")
  const LordOfTheRings := Book("10", "The Lord of the Rings", "J.R.R. Tolkien", "Fantasy", 1954, "Available")
  const BraveNewWorld := Book("11", "Brave New World", "Aldous Huxley", "Science Fiction", 1932, "Issued")
  const WutheringHeights := Book("12", "Wuthering Heights", "Emily Bronte", "Romance", 1847, "Available")
  const Narnia := Book("13", "The Chronicles of Narnia", "C.S. Lewis", "Fantasy", 1950, "Available")
  const AnimalFarm := Book("14", "Animal Farm", "George Orwell", "Political Satire", 1945, "Issued")
  const OfMiceAndMen := Book("15", "Of Mice and Men", "John Steinbeck", "Fiction", 1937, "Available")
  const MobyDick := Book("16", "Moby Dick", "Herman Melville", "Adventure", 1851, "Available")
  const GreatExpectations := Book("17", "Great Expectations", "Charles Dickens", "Fiction", 1861, "Issued")
  const Odyssey := Book("18", "The Odyssey", "Homer", "Epic", -800, "Available")
  const WarAndPeace := Book("19", "War and Peace", "Leo Tolstoy", "Historical", 1869, "Issued")

  function Seed(): (s: seq<Book>)
    ensures |s| == 19
  {
    [ Gatsby, Mockingbird, NineteenEightyFour, PrideAndPrejudice,
      Catcher, LordOfTheFlies, Hobbit, Fahrenheit,
      JaneEyre, LordOfTheRings, BraveNewWorld, WutheringHeights,
      Narnia, AnimalFarm, OfMiceAndMen, MobyDick,
      GreatExpectations, Odyssey, WarAndPeace ]
  }

  /** With an empty search term and no status filter, the genre filter
      "Fantasy" keeps exactly the fantasy books. */
  lemma FantasyTest(x: Book)
    ensures MatchFn("", "Fantasy", "")(x) <==> x.genre == "Fantasy"
  {
    IncludesEmpty(Lower(x.title));
  }

  lemma NoFantasy(a: seq<Book>)
    requires forall x :: x in a ==> x.genre != "Fantasy"
    ensures Filter(a, MatchFn("", "Fantasy", "")) == []
  {
    forall x | x in a
      ensures !MatchFn("", "Fantasy", "")(x)
    {
      FantasyTest(x);
    }
    FilterKeepsNone(a, MatchFn("", "Fantasy", ""));
  }

  /** A kept element followed by a run that is dropped adds just that element. */
  lemma {:induction false} KeptThenDropped<T(!new)>(p: seq<T>, x: T, b: seq<T>, keep: T -> bool)
    requires keep(x) && Filter(b, keep) == []
    ensures Filter(p + [x] + b, keep) == Filter(p, keep) + [x]
  {
    FilterKeepsAll([x], keep);
    FilterAppend(p, [x], keep);
    FilterAppend(p + [x], b, keep);
  }

  /** Two kept elements separated by runs that are dropped. */
  lemma {:induction false} FilterTwoKept<T(!new)>(a: seq<T>, x: T, b: seq<T>, y: T, c: seq<T>, keep: T -> bool)
    requires Filter(a, keep) == [] && Filter(b, keep) == [] && Filter(c, keep) == []
    requires keep(x) && keep(y)
    ensures Filter(a + [x] + b + [y] + c, keep) == [x, y]
  {
    KeptThenDropped(a, x, b, keep);
    KeptThenDropped(a + [x] + b, y, c, keep);
  }

  /** Three kept elements separated by runs that are dropped. */
  lemma {:induction false} FilterThreeKept<T(!new)>(a: seq<T>, x: T, b: seq<T>, y: T, c: seq<T>, z: T, d: seq<T>, keep: T -> bool)
    requires Filter(a, keep) == [] && Filter(b, keep) == [] && Filter(c, keep) == [] && Filter(d, keep) == []
    requires keep(x) && keep(y) && keep(z)
    ensures Filter(a + [x] + b + [y] + c + [z] + d, keep) == [x, y, z]
  {
    FilterTwoKept(a, x, b, y, c, keep);
    KeptThenDropped(a + [x] + b + [y] + c, z, d, keep);
  }

  function ChunkA(): seq<Book> { [Gatsby, Mockingbird, NineteenEightyFour, PrideAndPrejudice, Catcher, LordOfTheFlies] }
  function ChunkB(): seq<Book> { [Fahrenheit, JaneEyre] }
  function ChunkC(): seq<Book> { [BraveNewWorld, WutheringHeights] }
  function ChunkD(): seq<Book> { [AnimalFarm, OfMiceAndMen, MobyDick, GreatExpectations, Odyssey, WarAndPeace] }

  /** The seed list, cut around its three fantasy titles. */
  lemma SeedChunks()
    ensures Seed() == ChunkA() + [Hobbit] + ChunkB() + [LordOfTheRings] + ChunkC() + [Narnia] + ChunkD()
  {
  }

  lemma ChunkANoFantasy()
    ensures Filter(ChunkA(), MatchFn("", "Fantasy", "")) == []
  {
    NoFantasy(ChunkA());
  }

  lemma ChunkBNoFantasy()
    ensures Filter(ChunkB(), MatchFn("", "Fantasy", "")) == []
  {
    NoFantasy(ChunkB());
  }

  lemma ChunkCNoFantasy()
    ensures Filter(ChunkC(), MatchFn("", "Fantasy", "")) == []
  {
    NoFantasy(ChunkC());
  }

  lemma ChunkDNoFantasy()
    ensures Filter(ChunkD(), MatchFn("", "Fantasy", "")) == []
  {
    NoFantasy(ChunkD());
  }

  /** The genre filter "Fantasy" selects The Hobbit, The Lord of the Rings and
      The Chronicles of Narnia, in that order. */
  lemma FantasyScenario()
    ensures FilteredBooks(Seed(), "", "Fantasy", "") == [Hobbit, LordOfTheRings, Narnia]
  {
    SeedChunks();
    ChunkANoFantasy();
    ChunkBNoFantasy();
    ChunkCNoFantasy();
    ChunkDNoFantasy();
    FantasyTest(Hobbit);
    FantasyTest(LordOfTheRings);
    FantasyTest(Narnia);
    FilterThreeKept(ChunkA(), Hobbit, ChunkB(), LordOfTheRings, ChunkC(), Narnia, ChunkD(), MatchFn("", "Fantasy", ""));
  }
}
