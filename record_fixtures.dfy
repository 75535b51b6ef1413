/**
 * The two records the fixtures load, in load order, and what the list query
 * returns over them for a few requests.
 */
module RecordFixtures {
  import opened Wrappers
  import opened PhpRuntime
  import opened RecordEntity
  import Pagination
  import RecordFilters
  import RecordRepository

  const APPETITE: RecordData := RecordData(1, "Appetite for Destruction", "Guns N' Roses", 1499, Some(1987))
  const DARK_SIDE: RecordData := RecordData(2, "The Dark Side of the Moon", "Pink Floyd", 1799, None)

  const TABLE: seq<RecordData> := [APPETITE, DARK_SIDE]

  const NO_FILTERS: RecordFilters.Params := RecordFilters.Params(None, None)

  /** "Guns N' Roses" comes before "Pink Floyd", so the table is already in list order. */
  lemma TableOrdered()
    ensures RecordRepository.OrderBy(TABLE) == TABLE
  {
    assert RecordRepository.KeyLe(APPETITE, DARK_SIDE) by {
      assert APPETITE.artist[0] == 'G' && DARK_SIDE.artist[0] == 'P';
    }
    assert RecordRepository.OrderBy([DARK_SIDE]) == [DARK_SIDE];
  }

  lemma CastOne()
    ensures IntCast(Some("1")) == 1 && GreaterThanInt("1", 0)
  {
    DigitsConvert("1");
  }

  /** No parameters: both records, Guns N' Roses first. */
  lemma ListAll()
    ensures RecordRepository.FindByCriterion(TABLE, Pagination.Params(None, None), NO_FILTERS) == [APPETITE, DARK_SIDE]
  {
    TableOrdered();
    RecordRepository.WhereUnfiltered(TABLE, NO_FILTERS);
  }

  /** `limit=1`: the first record only. */
  lemma ListFirst()
    ensures RecordRepository.FindByCriterion(TABLE, Pagination.Params(None, Some("1")), NO_FILTERS) == [APPETITE]
  {
    CastOne();
    TableOrdered();
    RecordRepository.WhereUnfiltered(TABLE, NO_FILTERS);
  }

  /** `offset=1&limit=1`: the second record only. */
  lemma ListSecond()
    ensures RecordRepository.FindByCriterion(TABLE, Pagination.Params(Some("1"), Some("1")), NO_FILTERS) == [DARK_SIDE]
  {
    CastOne();
    TableOrdered();
    RecordRepository.WhereUnfiltered(TABLE, NO_FILTERS);
  }

  /** A text ending in `t` contains `t`. */
  lemma {:induction false} ContainsSuffix(p: string, t: string)
    ensures RecordRepository.Contains(p + t, t)
  {
    if p == [] {
      assert p + t == t;
    } else {
      ContainsSuffix(p[1..], t);
      assert (p + t)[1..] == p[1..] + t;
    }
  }

  /** "Roses" occurs in "Guns N' Roses", at its end. */
  lemma RosesInGunsNRoses()
    ensures RecordRepository.Contains(APPETITE.artist, "Roses")
  {
    ContainsSuffix("Guns N' ", "Roses");
    assert APPETITE.artist == "Guns N' " + "Roses";
  }

  /** A text contains only strings whose first character it has. */
  lemma {:induction false} ContainsFirstChar(s: string, t: string)
    requires t != [] && RecordRepository.Contains(s, t)
    ensures t[0] in s
  {
    if !RecordRepository.IsPrefix(t, s) {
      ContainsFirstChar(s[1..], t);
    }
  }

  /** "Roses" does not occur in "Pink Floyd", which has no 'R'. */
  lemma RosesNotInPinkFloyd()
    ensures !RecordRepository.Contains(DARK_SIDE.artist, "Roses")
  {
    assert 'R' !in DARK_SIDE.artist;
    if RecordRepository.Contains(DARK_SIDE.artist, "Roses") {
      ContainsFirstChar(DARK_SIDE.artist, "Roses");
    }
  }

  const ROSES: RecordFilters.Params := RecordFilters.Params(None, Some("Roses"))

  /** The WHERE clause for `artist=Roses` keeps the Guns N' Roses record only. */
  lemma WhereRoses()
    ensures RecordRepository.Where(TABLE, ROSES) == [APPETITE]
  {
    RosesInGunsNRoses();
    RosesNotInPinkFloyd();
    assert RecordRepository.Where([DARK_SIDE], ROSES) == [];
    assert TABLE[1..] == [DARK_SIDE];
  }

  /** `artist=Roses`: only the Guns N' Roses record. */
  lemma ListByArtist()
    ensures RecordRepository.FindByCriterion(TABLE, Pagination.Params(None, None), ROSES) == [APPETITE]
  {
    TableOrdered();
    WhereRoses();
  }
}
