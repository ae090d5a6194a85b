/**
 * The `files` table and the mutations and queries that convex/files.tsx
 * exposes over it: `createFile`, `getFiles`, `updateDocument`,
 * `updateWhiteboard` and `getFileById`.
 *
 * The database is a map from record id to record. Record ids are issued
 * from a counter, so a larger id means a later creation; this stands in for
 * the creation time by which `getFiles` orders its result.
 * Parsing and printing JSON are not part of this model: `updateWhiteboard`
 * receives them as the functions `parse` (None when `JSON.parse` throws) and
 * `stringify`.
 */
module Files {
  import opened Wrappers
  import opened WhiteboardMerge

  type RecordId = nat

  /** One document of the `files` table; the fields `createFile` takes. */
  datatype FileRecord = FileRecord(
    fileName: string,
    teamId: string,
    createdBy: string,
    archive: bool,
    document: string,
    whiteboard: string)

  /**
   * Why a mutation throws:
   *   MalformedJson - `JSON.parse` rejected the stored or the incoming whiteboard;
   *   NoSuchRecord  - `ctx.db.patch` was given an id with no record.
   * A mutation that throws leaves the table as it was.
   */
  datatype Error = MalformedJson | NoSuchRecord

  /**
   * `existingData` (line 52): no scene when the record is missing or its
   * whiteboard is the empty (falsy) string, otherwise the parsed whiteboard;
   * None when parsing throws.
   */
  function StoredScene(existing: Option<FileRecord>, parse: string -> Option<Scene>): Option<Scene> {
    if existing.None? || existing.value.whiteboard == "" then Some(NoScene) else parse(existing.value.whiteboard)
  }

  /**
   * The whiteboard text `updateWhiteboard` writes: the printed merge when
   * both sides have `elements` (line 78), else the incoming text verbatim
   * (line 83).
   */
  function NewWhiteboard(existingData: Scene, newData: Scene, text: string, stringify: Scene -> string): (w: string)
    ensures !(existingData.Snapshot? && newData.Snapshot?) ==> w == text
    ensures existingData.Snapshot? && newData.Snapshot? ==>
      w == stringify(Snapshot(MergedElements(existingData.elements, newData.elements),
                              Some(MergeFiles(existingData.files, newData.files))))
  {
    match Merge(existingData, newData)
    case Some(merged) => stringify(merged)
    case None => text
  }

  class FilesTable {
    var records: map<RecordId, FileRecord>
    /** The id the next inserted record receives. */
    var nextId: RecordId

    /** Every record id was issued before `nextId`. */
    ghost predicate Valid()
      reads this
    {
      forall id :: id in records ==> id < nextId
    }

    constructor ()
      ensures Valid()
      ensures records == map[] && nextId == 0
    {
      records := map[];
      nextId := 0;
    }

    /** `getFileById` (lines 90-98): the record with that id, or None. */
    function GetFileById(id: RecordId): (r: Option<FileRecord>)
      reads this
      ensures r.Some? <==> id in records
      ensures r.Some? ==> r.value == records[id]
    {
      if id in records then Some(records[id]) else None
    }

    /**
     * `createFile` (lines 4-17): insert a record equal to the arguments under
     * a new id, later than every id already issued, and return that id.
     */
    method CreateFile(fileName: string, teamId: string, createdBy: string, archive: bool,
                      document: string, whiteboard: string) returns (id: RecordId)
      requires Valid()
      modifies this
      ensures Valid()
      ensures id !in old(records)
      ensures forall other :: other in old(records) ==> other < id
      ensures records == old(records)[id := FileRecord(fileName, teamId, createdBy, archive, document, whiteboard)]
      ensures GetFileById(id) == Some(FileRecord(fileName, teamId, createdBy, archive, document, whiteboard))
    {
      id := nextId;
      records := records[id := FileRecord(fileName, teamId, createdBy, archive, document, whiteboard)];
      nextId := nextId + 1;
    }

    /**
     * `getFiles` (lines 19-31): every record of the team and no other, newest
     * first. The scan runs over the table from the latest id down.
     */
    method GetFiles(teamId: string) returns (result: seq<(RecordId, FileRecord)>)
      requires Valid()
      ensures forall d :: d in result <==> d.0 in records && records[d.0] == d.1 && d.1.teamId == teamId
      ensures forall i, j :: 0 <= i < j < |result| ==> result[i].0 > result[j].0
    {
      result := [];
      var id := nextId;
      while id > 0
        invariant id <= nextId
        invariant forall d :: d in result <==> id <= d.0 && d.0 in records && records[d.0] == d.1 && d.1.teamId == teamId
        invariant forall i :: 0 <= i < |result| ==> result[i].0 >= id
        invariant forall i, j :: 0 <= i < j < |result| ==> result[i].0 > result[j].0
      {
        id := id - 1;
        if id in records && records[id].teamId == teamId {
          result := result + [(id, records[id])];
        }
      }
    }

    /**
     * `updateDocument` (lines 33-42): set the `document` field of one record;
     * nothing else changes. An unknown id throws.
     */
    method UpdateDocument(id: RecordId, document: string) returns (outcome: Outcome<Error>)
      requires Valid()
      modifies this
      ensures Valid() && nextId == old(nextId)
      ensures outcome == if id in old(records) then Pass else Fail(NoSuchRecord)
      ensures records == if id in old(records) then old(records)[id := old(records)[id].(document := document)]
                         else old(records)
    {
      if id !in records {
        return Fail(NoSuchRecord);
      }
      records := records[id := records[id].(document := document)];
      outcome := Pass;
    }

    /** `ctx.db.patch(id, {whiteboard})`: set the `whiteboard` field of one record. */
    method PatchWhiteboard(id: RecordId, whiteboard: string) returns (outcome: Outcome<Error>)
      requires Valid()
      modifies this
      ensures Valid() && nextId == old(nextId)
      ensures outcome == if id in old(records) then Pass else Fail(NoSuchRecord)
      ensures records == if id in old(records) then old(records)[id := old(records)[id].(whiteboard := whiteboard)]
                         else old(records)
    {
      if id !in records {
        return Fail(NoSuchRecord);
      }
      records := records[id := records[id].(whiteboard := whiteboard)];
      outcome := Pass;
    }

    /**
     * `updateWhiteboard` (lines 44-86): read the stored whiteboard, parse both
     * sides, merge them when both have `elements`, and write the result into
     * the record's `whiteboard` field; otherwise write the incoming text as
     * it is. Only that field of that record changes; a failed parse or an
     * unknown id throws and changes nothing.
     */
    method UpdateWhiteboard(id: RecordId, whiteboard: string,
                            parse: string -> Option<Scene>, stringify: Scene -> string)
      returns (outcome: Outcome<Error>)
      requires Valid()
      modifies this
      ensures Valid() && nextId == old(nextId)
      ensures var existingData, newData := StoredScene(old(GetFileById(id)), parse), parse(whiteboard);
        if existingData.None? || newData.None? then
          outcome == Fail(MalformedJson) && records == old(records)
        else if id !in old(records) then
          outcome == Fail(NoSuchRecord) && records == old(records)
        else
          && outcome == Pass
          && records == old(records)[id := old(records)[id].(
               whiteboard := NewWhiteboard(existingData.value, newData.value, whiteboard, stringify))]
    {
      var existing := GetFileById(id);
      var existingData: Scene := NoScene;
      if existing.Some? && existing.value.whiteboard != "" {
        var parsed := parse(existing.value.whiteboard);
        if parsed.None? {
          return Fail(MalformedJson);
        }
        existingData := parsed.value;
      }
      var parsedNew := parse(whiteboard);
      if parsedNew.None? {
        return Fail(MalformedJson);
      }
      var newData := parsedNew.value;

      if existingData.Snapshot? && newData.Snapshot? {
        var elements := MergeElements(existingData.elements, newData.elements);
        var files := MergeFiles(existingData.files, newData.files);
        outcome := PatchWhiteboard(id, stringify(Snapshot(elements, Some(files))));
        return;
      }

      outcome := PatchWhiteboard(id, whiteboard);
    }
  }
}
