/** The cached database: one private cluster file per content, kept while the content repeats. */
module DatabaseCache {
  import opened Wrappers

  datatype Result<T> = Ok(value: T) | Threw

  /** Where opening can fail: creating the file, writing it, or opening the database. */
  datatype Fault = NoFault | CreateFails | WriteFails(partial: string) | OpenFails

  /** A database is identified by the path it was bound with. */
  type Path = nat

  class Server {
    var cachedContent: Option<string>
    var cachedDatabase: Option<Path>
    var files: map<Path, string>
    /** Every database opened so far with the content its caller asked for. */
    ghost var bound: map<Path, string>

    /** Every open database reads a file that still holds what was asked for. */
    ghost predicate Valid()
      reads this
    {
      && bound.Keys <= files.Keys && (forall path :: path in bound ==> files[path] == bound[path])
      && (cachedDatabase.Some? ==> cachedDatabase.value in bound)
    }

    /** The cached key describes the cached database. */
    ghost predicate KeyMatches()
      requires Valid()
      reads this
    {
      cachedDatabase.Some? ==> cachedContent == Some(bound[cachedDatabase.value])
    }

    constructor ()
      ensures Valid() && KeyMatches() && files == map[] && bound == map[]
    {
      cachedContent, cachedDatabase, files, bound := None, None, map[], map[];
    }

    predicate Hit(content: string)
      reads this
    {
      cachedDatabase.Some? && cachedContent == Some(content)
    }

    /**
     The database for a content. `path` is the name of a new temporary file. No file of an
     open database is ever written. What is returned reads the requested content if and only
     if it is new, or the cached database was opened for that content; a new one makes the
     key right again. The key goes wrong only by an open that fails while another database
     is cached.
     */
    method CreateDatabase(content: string, path: Path, fault: Fault) returns (r: Result<Path>)
      requires Valid() && path !in files
      modifies this
      ensures Valid()
      ensures forall p :: p in old(files) ==> p in files && files[p] == old(files)[p]
      ensures forall p :: p in old(bound) ==> p in bound && bound[p] == old(bound)[p]
      ensures files.Keys <= old(files).Keys + {path}
      ensures cachedContent == if old(Hit(content)) || fault.CreateFails? || fault.WriteFails? then old(cachedContent) else Some(content)
      ensures cachedDatabase == if old(Hit(content)) || !fault.NoFault? then old(cachedDatabase) else Some(path)
      ensures r.Threw? <==> !old(Hit(content)) && !fault.NoFault?
      ensures r.Ok? ==> cachedDatabase == Some(r.value)
      ensures r.Ok? && old(KeyMatches()) ==> files[r.value] == bound[r.value] == content && Hit(content)
      ensures r.Ok? ==>
        (files[r.value] == content <==> !old(Hit(content)) || old(bound[cachedDatabase.value]) == content)
      ensures r.Ok? && !old(Hit(content)) ==> KeyMatches()
      ensures old(Hit(content)) ==> files == old(files)
      ensures old(KeyMatches()) ==>
        (KeyMatches() <==> old(Hit(content)) || !fault.OpenFails? || old(cachedDatabase).None?)
    {
      if Hit(content) {
        return Ok(cachedDatabase.value);
      }
      if fault.CreateFails? { return Threw; }
      files := files[path := ""];
      if fault.WriteFails? {
        files := files[path := fault.partial];
        return Threw;
      }
      files := files[path := content];
      cachedContent := Some(content);
      if fault.OpenFails? { return Threw; }
      bound := bound[path := content];
      cachedDatabase := Some(path);
      return Ok(path);
    }
  }

  /** A failed open leaves the new key on the old database: the next call returns the wrong one. */
  method StaleAfterFailedOpen(a: string, b: string) returns (server: Server, r: Result<Path>)
    requires a != b
    ensures fresh(server) && server.Valid() && r.Ok?
    ensures r.value in server.files && server.files[r.value] == a && server.cachedContent == Some(b)
  {
    server := new Server();
    r := server.CreateDatabase(a, 0, NoFault);
    r := server.CreateDatabase(b, 1, OpenFails);
    r := server.CreateDatabase(b, 2, NoFault);
  }
}
