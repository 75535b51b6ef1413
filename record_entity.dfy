/**
 * The `Record` entity: a row of the `record` table, mutated in place through
 * its setters. The entity names its title column `name`; the service and the
 * repository call it `title`, and so does this model. The id is assigned by
 * the store when the record is first persisted; the entity has no setter for
 * it. Prices are in cents.
 */
module RecordEntity {
  import opened Wrappers

  /** The column limits: `title` and `artist` are `string(100)`. */
  const MAX_TEXT_LENGTH: nat := 100

  /** A persisted record as the API reports it: `{id, title, artist, price, releasedYear}`. */
  datatype RecordData = RecordData(id: int, title: string, artist: string, price: int, releasedYear: Option<int>)

  class Record {
    /** `None` until the store assigns the generated id. */
    var id: Option<int>
    var title: string
    var artist: string
    var price: int
    var releasedYear: Option<int>

    /** A new, not yet persisted record; the year stays unset (`None`) until its setter runs. */
    constructor (title: string, artist: string, price: int)
      ensures this.title == title && this.artist == artist && this.price == price
      ensures id == None && releasedYear == None
    {
      this.id := None;
      this.title := title;
      this.artist := artist;
      this.price := price;
      this.releasedYear := None;
    }

    function GetId(): (r: int)
      reads this
      requires id.Some?
    {
      id.value
    }

    function GetTitle(): (r: string) reads this { title }

    function GetArtist(): (r: string) reads this { artist }

    function GetPrice(): (r: int) reads this { price }

    function GetReleasedYear(): (r: Option<int>) reads this { releasedYear }

    /** The record's row, once it has an id. */
    function Data(): (d: RecordData)
      reads this
      requires id.Some?
    {
      RecordData(id.value, title, artist, price, releasedYear)
    }

    /** The row the record would hold with the id `id`. */
    function DataWithId(id: int): (d: RecordData)
      reads this
    {
      RecordData(id, title, artist, price, releasedYear)
    }

    method SetTitle(title: string)
      modifies this
      ensures GetTitle() == title
      ensures id == old(id) && artist == old(artist) && price == old(price) && releasedYear == old(releasedYear)
    {
      this.title := title;
    }

    method SetArtist(artist: string)
      modifies this
      ensures GetArtist() == artist
      ensures id == old(id) && title == old(title) && price == old(price) && releasedYear == old(releasedYear)
    {
      this.artist := artist;
    }

    method SetPrice(price: int)
      modifies this
      ensures GetPrice() == price
      ensures id == old(id) && title == old(title) && artist == old(artist) && releasedYear == old(releasedYear)
    {
      this.price := price;
    }

    method SetReleasedYear(releasedYear: Option<int>)
      modifies this
      ensures GetReleasedYear() == releasedYear
      ensures id == old(id) && title == old(title) && artist == old(artist) && price == old(price)
    {
      this.releasedYear := releasedYear;
    }
  }

  /**
   * A stored row fits its columns: the two texts have at most 100
   * characters and the year, when there is one, fits a `smallint`.
   */
  predicate FitsColumns(d: RecordData)
  {
    && |d.title| <= MAX_TEXT_LENGTH && |d.artist| <= MAX_TEXT_LENGTH
    && (d.releasedYear.Some? ==> -32768 <= d.releasedYear.value <= 32767)
  }
}
