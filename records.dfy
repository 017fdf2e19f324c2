/**
 * The Resource table: uploaded-document metadata rows. The database is
 * replaced by an in-memory table whose `Create` appends one row with a
 * freshly generated id and the creation time.
 */
module Records {
  import opened Common

  /** One stored Resource row; `createdAt` is a timestamp in milliseconds. */
  datatype Resource = Resource(
    id: nat,
    title: string,
    description: Option<string>,
    fileName: string,
    fileUrl: string,
    fileType: string,
    category: string,
    course: Option<string>,
    specialization: Option<string>,
    createdAt: int)

  /** The columns a caller supplies to `create`; id and timestamp are generated. */
  datatype Draft = Draft(
    title: string,
    description: Option<string>,
    fileName: string,
    fileUrl: string,
    fileType: string,
    category: string,
    course: Option<string>,
    specialization: Option<string>)

  function Stamp(d: Draft, id: nat, createdAt: int): Resource {
    Resource(id, d.title, d.description, d.fileName, d.fileUrl, d.fileType,
             d.category, d.course, d.specialization, createdAt)
  }

  /** Ids increase along the table and stay below the next id to hand out. */
  predicate IdsBelow(rows: seq<Resource>, next: nat) {
    && (forall i, j :: 0 <= i < j < |rows| ==> rows[i].id < rows[j].id)
    && (forall i :: 0 <= i < |rows| ==> rows[i].id < next)
  }

  class ResourceTable {
    var rows: seq<Resource>
    var nextId: nat

    ghost predicate Valid()
      reads this
    {
      IdsBelow(rows, nextId)
    }

    constructor ()
      ensures Valid() && rows == []
    {
      rows := [];
      nextId := 0;
    }

    /** Inserts one row built from `d`; no existing row changes and the new id is unused. */
    method Create(d: Draft, now: int) returns (r: Resource)
      requires Valid()
      modifies this
      ensures Valid()
      ensures r == Stamp(d, old(nextId), now)
      ensures rows == old(rows) + [r]
      ensures forall i :: 0 <= i < |old(rows)| ==> old(rows)[i].id != r.id
    {
      r := Stamp(d, nextId, now);
      rows := rows + [r];
      nextId := nextId + 1;
    }
  }
}
