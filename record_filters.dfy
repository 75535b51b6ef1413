/**
 * The `RecordFilters` request parameters of the record list: optional
 * `title` and `artist` substrings. The getters return the stored values
 * unchanged, so they are the datatype's own fields.
 */
module RecordFilters {
  import opened Wrappers
  import opened SymfonyValidator

  datatype Params = Params(title: Option<string>, artist: Option<string>)

  /**
   * The violations of a `RecordFilters`: `title` then `artist`, each
   * `Type("string")` and `Length(max="100")`. Request values are strings or
   * `null`, so `Type("string")` never raises one.
   */
  function Violations(f: Params): (vs: seq<Violation>)
  {
    MaxLength100("title", f.title) + MaxLength100("artist", f.artist)
  }

  predicate Fits(v: Option<string>) { v.Some? ==> |v.value| <= 100 }

  /**
   * The filters are valid exactly when each present value has at most 100
   * characters; a longer one is reported at its own field, and an absent
   * one never is.
   */
  lemma ValidIff(f: Params)
    ensures Violations(f) == [] <==> Fits(f.title) && Fits(f.artist)
    ensures !Fits(f.title) ==> SomeAt(Violations(f), "title")
    ensures !Fits(f.artist) ==> SomeAt(Violations(f), "artist")
    ensures f.title == None ==> !SomeAt(Violations(f), "title")
    ensures f.artist == None ==> !SomeAt(Violations(f), "artist")
  {
    var vs := Violations(f);
    if !Fits(f.artist) {
      assert vs[|vs| - 1].path == "artist";
    }
    if !Fits(f.title) {
      assert vs[0].path == "title";
    }
  }
}
