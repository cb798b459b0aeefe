/** The list operations as one client runs them against the server: requests in sequence, branches on
    what each returned, and whatever other clients do to the document between the two requests. */
module SharedListClient {
  import opened Wrappers
  import Base36
  import opened SharedList

  /** What happens to the document between two requests of this client. */
  datatype Meanwhile = Nothing | Changed(items: seq<Item>) | Deleted

  function Disturbed(doc: Document, m: Meanwhile, stamp: Cas): Document {
    match m
    case Nothing => doc
    case Changed(items) => List(items, stamp)
    case Deleted => Missing
  }

  /** The answer to a lookup of "[-1]". */
  datatype Reply = NoDocument | NoElement | Element(v: Item, cas: Cas)

  /** The server's copy of one document and its last CAS value. */
  class Server {
    var doc: Document
    var stamp: nat

    ghost predicate Valid()
      reads this
    {
      doc.List? ==> 0 < doc.version <= stamp
    }

    /** CAS values are still to be had for the next two mutations. */
    predicate HasStamps()
      reads this
    {
      stamp + 2 < Base36.U64
    }

    constructor (doc: Document)
      requires doc.List? ==> doc.version > 0
      ensures Valid() && this.doc == doc
    {
      this.doc := doc;
      stamp := if doc.List? then doc.version else 0;
    }

    method LookupLast() returns (r: Reply)
      requires Valid()
      ensures r == (if doc.Missing? then NoDocument
                    else if doc.items == [] then NoElement
                    else Element(doc.items[|doc.items| - 1], doc.version))
    {
      match doc {
        case Missing => r := NoDocument;
        case List(items, version) =>
          r := if items == [] then NoElement else Element(items[|items| - 1], version);
      }
    }

    method Remove(path: Path, cas: Cas) returns (ok: bool)
      requires Valid() && stamp + 1 < Base36.U64
      modifies this
      ensures Valid() && stamp == old(stamp) + 1
      ensures ok == CanRemove(old(doc), path, cas)
      ensures doc == Removed(old(doc), path, cas, stamp)
    {
      ok := CanRemove(doc, path, cas);
      stamp := stamp + 1;
      doc := Removed(doc, path, cas, stamp);
    }

    /** The other clients. */
    method Others(m: Meanwhile)
      requires Valid() && stamp + 1 < Base36.U64
      modifies this
      ensures Valid() && stamp == old(stamp) + 1
      ensures doc == Disturbed(old(doc), m, stamp)
    {
      stamp := stamp + 1;
      doc := Disturbed(doc, m, stamp);
    }
  }

  /** queueRemove.  Undisturbed it removes and returns the last element.  Disturbed after seeing an element
      it changes nothing and returns null.  After seeing an empty list it removes whatever is last by then,
      and returns null all the same. */
  method QueueRemove(server: Server, meanwhile: Meanwhile) returns (r: Option<Item>)
    requires server.Valid() && server.HasStamps()
    modifies server
    ensures server.Valid()
    ensures var was := old(server.doc); var now := Disturbed(was, meanwhile, old(server.stamp) + 1);
      if was.Missing? then r == None && server.doc == was
      else if was.items != [] && meanwhile.Nothing? then
        && r == Some(was.items[|was.items| - 1])
        && server.doc == List(was.items[..|was.items| - 1], old(server.stamp) + 2)
      else
        && r == None
        && server.doc == if was.items == [] && now.List? && now.items != []
                         then List(now.items[..|now.items| - 1], old(server.stamp) + 2) else now
  {
    hide Base36.CasEncode, Base36.CasDecode;
    var reply := server.LookupLast();
    var val: Option<Item>;
    var casval: Base36.CasText;
    match reply {
      case NoDocument => return None;
      case NoElement => val, casval := None, Base36.NotAString;
      case Element(v, version) =>
        val, casval := Some(v), Base36.CasEncode(version);
        Base36.CasRoundTrip(version);
    }
    server.Others(meanwhile);
    var cas: Cas := 0;
    if casval.Text? {
      cas := Base36.CasDecode(casval);
    }
    var ok := server.Remove(Last, cas);
    if !ok {
      return None;
    }
    r := val;
  }

  /** setRemove; `None` is the exception for a missing document.  Undisturbed it removes the first occurrence;
      disturbed, the CAS conflict leaves the document to the others and the result is false. */
  method SetRemove(server: Server, v: Item, meanwhile: Meanwhile) returns (r: Option<bool>)
    requires server.Valid() && server.HasStamps()
    modifies server
    ensures server.Valid()
    ensures var was := old(server.doc);
      if was.Missing? then r == None && server.doc == was
      else if v !in was.items then r == Some(false) && server.doc == was
      else if meanwhile.Nothing? then
        && r == Some(true)
        && server.doc == List(Without(was.items, FirstIndex(was.items, v)), old(server.stamp) + 2)
      else r == Some(false) && server.doc == Disturbed(was, meanwhile, old(server.stamp) + 1)
  {
    hide Base36.CasEncode, Base36.CasDecode;
    match server.doc {
      case Missing => r := None;
      case List(items, version) =>
        Base36.CasRoundTrip(version);
        var cas := Base36.CasDecode(Base36.CasEncode(version));
        var found := FindIndex(items, v);
        if found >= 0 {
          server.Others(meanwhile);
          var ok := server.Remove(At(found), cas);
          return Some(ok);
        }
        r := Some(false);
    }
  }
}
