/** `InventoryLogger<T>`: an append-only log of items that can be written to and read
    back from one file. The file system is a map from path to contents, and the JSON
    serializer is a pair of functions given by the caller. */
module InventoryLogger {
  import opened Wrappers

  datatype Logger<T> = Logger(log: seq<T>, filePath: string)

  /** The file system: the contents of every existing file. */
  type Files = map<string, string>

  /** What `JsonSerializer.Deserialize<List<T>>` does with a text: a list, the JSON
      `null`, or an exception. */
  datatype Decoded<T> = Items(items: seq<T>) | JsonNull | Malformed

  /** Whether a save reached the file or was caught and reported. */
  datatype SaveReport = Saved | SaveFailed

  /** `new InventoryLogger<T>(filePath)`: an empty log. */
  function NewLogger<T>(filePath: string): (lg: Logger<T>)
    ensures lg.log == [] && lg.filePath == filePath
  {
    Logger([], filePath)
  }

  /** `Add`: appends, without looking for an equal item already logged. */
  function Add<T>(lg: Logger<T>, item: T): (r: Logger<T>)
    ensures r.filePath == lg.filePath
    ensures |r.log| == |lg.log| + 1 && r.log[|lg.log|] == item
    ensures r.log[..|lg.log|] == lg.log
  {
    lg.(log := lg.log + [item])
  }

  /** `GetAll`: the logged items in the order they were added. */
  function GetAll<T>(lg: Logger<T>): seq<T> {
    lg.log
  }

  /** Adds the items one by one, in order. */
  function AddEach<T>(lg: Logger<T>, items: seq<T>): Logger<T>
    decreases |items|
  {
    if |items| == 0 then lg else AddEach(Add(lg, items[0]), items[1..])
  }

  /** Whatever was added comes back from `GetAll` in the order of adding, after what
      was there before, duplicates included. */
  lemma {:induction false} GetAllReturnsAddOrder<T>(lg: Logger<T>, items: seq<T>)
    ensures GetAll(AddEach(lg, items)) == GetAll(lg) + items
    ensures AddEach(lg, items).filePath == lg.filePath
    decreases |items|
  {
    if |items| > 0 {
      GetAllReturnsAddOrder(Add(lg, items[0]), items[1..]);
      assert lg.log + [items[0]] + items[1..] == lg.log + items;
    }
  }

  /** `SaveToFile`. Opening the `StreamWriter` creates or empties the file before the
      log is serialized, so a serializer failure (`encode` giving `None`) leaves an
      empty file behind; a file that cannot be opened is left as it was. Either
      failure is caught and reported, never raised. No other file is touched. */
  function SaveToFile<T>(lg: Logger<T>, files: Files, canOpen: bool, encode: seq<T> -> Option<string>): (r: (Files, SaveReport))
    ensures r.1 == Saved <==> canOpen && encode(lg.log).Some?
    ensures r.1 == Saved ==> lg.filePath in r.0 && r.0[lg.filePath] == encode(lg.log).value
    ensures !canOpen ==> r.0 == files
    ensures canOpen && encode(lg.log).None? ==> lg.filePath in r.0 && r.0[lg.filePath] == ""
    ensures forall p :: p != lg.filePath ==> (p in r.0 <==> p in files)
    ensures forall p :: p != lg.filePath && p in files ==> r.0[p] == files[p]
  {
    if !canOpen then (files, SaveFailed)
    else
      match encode(lg.log)
      case None => (files[lg.filePath := ""], SaveFailed)
      case Some(json) => (files[lg.filePath := json], Saved)
  }

  /** `LoadFromFile`. A missing file leaves the log alone. Otherwise the log becomes the
      decoded list; a JSON `null`, a read failure (`canRead` false) or a decoding
      exception all leave it empty, and nothing is raised. */
  function LoadFromFile<T>(lg: Logger<T>, files: Files, canRead: bool, decode: string -> Decoded<T>): (r: Logger<T>)
    ensures r.filePath == lg.filePath
    ensures lg.filePath !in files ==> r == lg
    ensures lg.filePath in files && canRead && decode(files[lg.filePath]).Items? ==>
      r.log == decode(files[lg.filePath]).items
    ensures lg.filePath in files && !(canRead && decode(files[lg.filePath]).Items?) ==> r.log == []
  {
    if lg.filePath !in files then lg
    else if !canRead then lg.(log := [])
    else
      match decode(files[lg.filePath])
      case Items(items) => lg.(log := items)
      case JsonNull => lg.(log := [])
      case Malformed => lg.(log := [])
  }

  /** A codec whose decoder reads back every text its encoder writes. */
  ghost predicate RoundTrips<T(!new)>(encode: seq<T> -> Option<string>, decode: string -> Decoded<T>) {
    forall xs :: encode(xs).Some? ==> decode(encode(xs).value) == Items(xs)
  }

  /** Saving and then loading, with a round-tripping codec and no I/O failure, gives
      back the log as it was before the save. */
  lemma SaveThenLoad<T(!new)>(lg: Logger<T>, files: Files, encode: seq<T> -> Option<string>, decode: string -> Decoded<T>)
    requires RoundTrips(encode, decode)
    requires encode(lg.log).Some?
    ensures var (files', report) := SaveToFile(lg, files, true, encode);
      && report == Saved
      && LoadFromFile(lg.(log := []), files', true, decode) == lg
  {
  }

  /** A save whose serializer fails has already emptied the file; since an empty text
      is not valid JSON, the next load throws and empties the log: everything logged
      is lost. */
  lemma FailedSaveLosesLog<T>(lg: Logger<T>, other: Logger<T>, files: Files, encode: seq<T> -> Option<string>, decode: string -> Decoded<T>)
    requires encode(lg.log).None?
    requires decode("") == Malformed
    requires other.filePath == lg.filePath
    ensures SaveToFile(lg, files, true, encode).1 == SaveFailed
    ensures LoadFromFile(other, SaveToFile(lg, files, true, encode).0, true, decode).log == []
  {
  }

  /** Loading twice from unchanged files gives the same log as loading once: the
      first load decides the log whatever it held before, unless the file is missing. */
  lemma LoadIsIdempotent<T>(lg: Logger<T>, files: Files, canRead: bool, decode: string -> Decoded<T>)
    ensures var once := LoadFromFile(lg, files, canRead, decode);
      LoadFromFile(once, files, canRead, decode) == once
  {
  }
}
