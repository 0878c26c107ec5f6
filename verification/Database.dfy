/** The file metadata table of the database. Every method is one database statement. */
module Database {
  import opened Wrappers
  import opened Models

  type Rows = map<FileId, File>

  /** The table after counting one download; a missing row is left missing. */
  function Counted(rows: Rows, id: FileId, decreaseRemaining: bool): (r: Rows)
    ensures r.Keys == rows.Keys
  {
    if id !in rows then rows
    else
      var row := rows[id];
      rows[id := row.(downloadCount := row.downloadCount + 1,
                      downloadsRemaining := if decreaseRemaining then row.downloadsRemaining - 1 else row.downloadsRemaining)]
  }

  /** Two downloads, of one file or of two, may be counted in either order. */
  lemma CountingCommutes(rows: Rows, a: FileId, decreaseA: bool, b: FileId, decreaseB: bool)
    ensures Counted(Counted(rows, a, decreaseA), b, decreaseB) == Counted(Counted(rows, b, decreaseB), a, decreaseA)
  {
    var one, two := Counted(Counted(rows, a, decreaseA), b, decreaseB), Counted(Counted(rows, b, decreaseB), a, decreaseA);
    assert forall id :: id in rows ==> one[id] == two[id];
  }

  function DownloadsRemaining(rows: Rows, id: FileId): int {
    if id in rows then rows[id].downloadsRemaining else 0
  }

  class MetaDataTable {
    var rows: Rows

    constructor ()
      ensures rows == map[]
    {
      rows := map[];
    }

    method GetAllMetadata() returns (all: Rows)
      ensures all == rows
    {
      all := rows;
    }

    method GetMetaDataById(id: FileId) returns (file: Option<File>)
      ensures file == if id in rows then Some(rows[id]) else None
    {
      file := if id in rows then Some(rows[id]) else None;
    }

    /** Replaces the whole row. */
    method SaveMetaData(file: File)
      modifies this
      ensures rows == old(rows)[file.id := file]
    {
      rows := rows[file.id := file];
    }

    method DeleteMetaData(id: FileId)
      modifies this
      ensures rows == old(rows) - {id}
    {
      rows := rows - {id};
    }
  }
}
