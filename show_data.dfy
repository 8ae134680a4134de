/** The show record that the show list and the journal pages read.
    The data file that defines the shows is not part of this model; the
    fields below are the ones the two components use. */
module ShowData {
  import opened Wrappers

  /** Credit line of a journal's photographs. */
  datatype PhotoCredit = PhotoCredit(name: string, url: string)

  /** The optional journal of a show: a blurb, a photo credit and photo file names.
      Each part may be missing, as in the data the components read. */
  datatype Journal = Journal(
    blurb: Option<string>,
    photoCredit: Option<PhotoCredit>,
    photos: Option<seq<string>>)

  /** One show. `date` is a day number (days since the epoch), standing for
      the calendar date string of the data. That string is taken to be a
      date-only ISO date, which the source reads as UTC midnight. */
  datatype Show = Show(
    date: int,
    venue: string,
    location: string,
    supportActs: Option<string>,
    slug: string,
    journal: Option<Journal>)
}
