/**
 * The video library: one record per stored media file, keyed by video id,
 * and the storage directory it is reconciled against.
 */
module Catalogue {

  /**
   * One library entry, with the fields the server stores for a video.
   * `sizeHundredthsMb` is the `file_size` field (megabytes rounded to two
   * decimals) written as a whole number of hundredths of a megabyte.
   */
  datatype Video = Video(
    id: string,
    title: string,
    filename: string,
    duration: nat,
    thumbnail: string,
    originalUrl: string,
    sizeHundredthsMb: nat
  )

  /** The in-memory `videos` dictionary: video id to record. */
  type Library = map<string, Video>

  /** One entry of the storage directory (a file, or a subdirectory, which glob lists alike): its base name and size in bytes. */
  datatype Entry = Entry(name: string, bytes: nat)

  /** The storage directory as the operating system lists it, in listing order. */
  type Listing = seq<Entry>

  /** Every record is stored under its own id. */
  ghost predicate WellKeyed(lib: Library) {
    forall k :: k in lib ==> lib[k].id == k
  }

  predicate FileExists(dir: Listing, name: string) {
    exists e :: e in dir && e.name == name
  }

  /** The JSON reply of a route: whether it succeeded and the message shown to the user. */
  datatype Reply = Reply(success: bool, message: string)

  const BytesPerMb: nat := 1024 * 1024

  function Abs(x: int): nat {
    if x < 0 then -x else x
  }

  /** `round(bytes / (1024 * 1024), 2)` as a count of hundredths of a megabyte. */
  function HundredthsOfMb(bytes: nat): nat {
    var q := (100 * bytes) / BytesPerMb;
    var r := (100 * bytes) % BytesPerMb;
    if 2 * r < BytesPerMb then q
    else if 2 * r > BytesPerMb then q + 1
    else if q % 2 == 0 then q
    else q + 1
  }

  /**
   * The recorded size is the nearest hundredth of a megabyte, and the even
   * one on an exact tie (Python rounds the exact quotient half to even).
   */
  lemma HundredthsOfMbNearest(bytes: nat)
    ensures var h := HundredthsOfMb(bytes);
            && 2 * Abs(h * BytesPerMb - 100 * bytes) <= BytesPerMb
            && (2 * Abs(h * BytesPerMb - 100 * bytes) == BytesPerMb ==> h % 2 == 0)
  {
    var q := (100 * bytes) / BytesPerMb;
    var r := (100 * bytes) % BytesPerMb;
    assert 100 * bytes == q * BytesPerMb + r;
  }
}
