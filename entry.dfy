// The record the script passes between its stages: one article of a feed.

module Feed {

  /** One entry. `pubDate` stands for the publication time and is only ever
      compared; `isOld` marks entries read back from the previous output. */
  datatype Entry = Entry(
    title: string,
    link: string,
    summary: string,
    journal: string,
    id: string,
    pubDate: int,
    isOld: bool)
}
