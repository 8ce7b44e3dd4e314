/** The delegation blob file: records one after another, searched from the start and overwritten
    in place, as a map from entity to blob. */
module Delegation {
  import opened Bytes

  const HEADER: nat := 72

  /** An entity is a type and a key handle. */
  datatype Entity = Entity(etype: uint32, keyhandle: uint32)

  datatype Record = Record(entity: Entity, keyDigest: Digest, passHash: Digest, oldPassHash: Digest, blob: Blob)

  /** struct delegation_blob, in the byte order of a little-endian host. */
  function Header(r: Record): (s: seq<byte>)
    ensures |s| == HEADER
  {
    LE32(r.entity.etype) + LE32(r.entity.keyhandle) + r.keyDigest + LE32(|r.blob|) + r.passHash + r.oldPassHash
  }

  function Encode(r: Record): seq<byte> {
    Header(r) + r.blob
  }

  function File(rs: seq<Record>): seq<byte> {
    if rs == [] then [] else Encode(rs[0]) + File(rs[1..])
  }

  /** The entity and the blob size that a header at `pos` gives, whatever the file holds there. */
  function EntityAt(content: seq<byte>, pos: nat): Entity
    requires pos + HEADER <= |content|
  {
    Entity(LoadLE32(content, pos), LoadLE32(content, pos + 4))
  }

  function SizeAt(content: seq<byte>, pos: nat): uint32
    requires pos + HEADER <= |content|
  {
    LoadLE32(content, pos + 28)
  }

  /** Where a search from `pos` ends: at a matching record, or where no header can be read. */
  datatype Scan = Found(pos: nat) | Ended(pos: nat)

  function ScanFrom(content: seq<byte>, e: Entity, pos: nat): Scan
    decreases |content| - pos
  {
    if pos + HEADER > |content| then Ended(if pos < |content| then |content| else pos)
    else if EntityAt(content, pos) == e then Found(pos)
    else ScanFrom(content, e, pos + HEADER + SizeAt(content, pos))
  }

  /** Writing at a position: what was there is overwritten, a gap before it reads as zeros. */
  function Overwrite(content: seq<byte>, pos: nat, bytes: seq<byte>): seq<byte> {
    (if pos <= |content| then content[..pos] else content + seq(pos - |content|, i => 0)) + bytes +
    (if pos + |bytes| <= |content| then content[pos + |bytes|..] else [])
  }

  function Added(content: seq<byte>, r: Record): seq<byte> {
    Overwrite(content, ScanFrom(content, r.entity, 0).pos, Encode(r))
  }

  datatype Answer = Blob(blob: seq<byte>) | Error(code: uint32)

  function Fetched(content: seq<byte>, e: Entity, bufferSize: nat): Answer {
    var scan := ScanFrom(content, e, 0);
    if scan.Ended? || scan.pos + HEADER > |content| then Error(ERR_NOT_FOUND)
    else
      var size, from := SizeAt(content, scan.pos), scan.pos + HEADER;
      if bufferSize < size then Error(ERR_BUFFER)
      else if from + size > |content| then Error(ERR_BAD_FILE)
      else Blob(content[from..from + size])
  }

  class BlobFile {
    var content: seq<byte>
    var cursor: nat

    method Read(n: nat) returns (bytes: seq<byte>)
      modifies this`cursor
      ensures bytes == if old(cursor) + n <= |content| then content[old(cursor)..old(cursor) + n]
                       else if old(cursor) <= |content| then content[old(cursor)..] else []
      ensures cursor == old(cursor) + |bytes|
    {
      if cursor + n <= |content| {
        bytes := content[cursor..cursor + n];
      } else if cursor <= |content| {
        bytes := content[cursor..];
      } else {
        bytes := [];
      }
      cursor := cursor + |bytes|;
    }

    method Write(bytes: seq<byte>)
      modifies this
      ensures content == Overwrite(old(content), old(cursor), bytes) && cursor == old(cursor) + |bytes|
    {
      content := Overwrite(content, cursor, bytes);
      cursor := cursor + |bytes|;
    }

    /** The search ends on every content of the file, with the cursor at the record found or past
        what could be read. */
    method Find(e: Entity) returns (found: bool)
      modifies this`cursor
      ensures ScanFrom(content, e, 0) == if found then Found(cursor) else Ended(cursor)
    {
      cursor := 0;
      while true
        invariant ScanFrom(content, e, cursor) == ScanFrom(content, e, 0)
        decreases |content| - cursor
      {
        ghost var pos := cursor;
        var db := Read(HEADER);
        if |db| != HEADER {
          return false;
        }
        if LoadLE32(db, 0) == e.etype && LoadLE32(db, 4) == e.keyhandle {
          cursor := cursor - HEADER;
          return true;
        }
        cursor := cursor + LoadLE32(db, 28);
        assert LoadLE32(db, 28) == SizeAt(content, pos);
      }
    }

    method Get(e: Entity, bufferSize: nat) returns (answer: Answer)
      modifies this`cursor
      ensures answer == Fetched(content, e, bufferSize)
    {
      var found := Find(e);
      if !found {
        return Error(ERR_NOT_FOUND);
      }
      ghost var pos := cursor;
      FoundInside(content, e, 0);
      var db := Read(HEADER);
      var size := LoadLE32(db, 28);
      assert size == SizeAt(content, pos);
      if bufferSize < size {
        return Error(ERR_BUFFER);
      }
      var blob := Read(size);
      if |blob| != size {
        return Error(ERR_BAD_FILE);
      }
      return Blob(blob);
    }

    method Add(e: Entity, oldPassHash: Digest, newPassHash: Digest, blob: Blob)
      modifies this
      ensures content == Added(old(content), Record(e, ZERO_DIGEST, newPassHash, oldPassHash, blob))
    {
      var db := Record(e, ZERO_DIGEST, newPassHash, oldPassHash, blob);
      var _ := Find(e);
      ghost var before, pos := content, cursor;
      Write(Header(db));
      Write(blob);
      WrittenTwice(before, pos, Header(db), blob);
    }

    method Reset()
      modifies this
      ensures content == File([])
    {
      content := [];
    }
  }

  lemma WrittenTwice(content: seq<byte>, pos: nat, a: seq<byte>, b: seq<byte>)
    ensures Overwrite(Overwrite(content, pos, a), pos + |a|, b) == Overwrite(content, pos, a + b)
  {
  }

  lemma {:induction false} FoundInside(content: seq<byte>, e: Entity, pos: nat)
    ensures ScanFrom(content, e, pos).Found? ==>
              var at := ScanFrom(content, e, pos).pos;
              pos <= at && at + HEADER <= |content| && EntityAt(content, at) == e
    decreases |content| - pos
  {
    if pos + HEADER <= |content| && EntityAt(content, pos) != e {
      FoundInside(content, e, pos + HEADER + SizeAt(content, pos));
    }
  }

  // ----- The file as a map.

  /** The index of the first record of an entity, or the number of records. */
  function IndexOf(rs: seq<Record>, e: Entity): (i: nat)
    ensures i <= |rs| && (i < |rs| ==> rs[i].entity == e)
    ensures forall j :: 0 <= j < i ==> rs[j].entity != e
  {
    if rs == [] || rs[0].entity == e then 0 else 1 + IndexOf(rs[1..], e)
  }

  function Put(rs: seq<Record>, r: Record): seq<Record> {
    var i := IndexOf(rs, r.entity);
    if i < |rs| then rs[i := r] else rs + [r]
  }

  function Entries(rs: seq<Record>): map<Entity, seq<byte>> {
    if rs == [] then map[] else Entries(rs[1..])[rs[0].entity := rs[0].blob]
  }

  lemma PutEntries(rs: seq<Record>, r: Record)
    ensures Entries(Put(rs, r)) == Entries(rs)[r.entity := r.blob]
  {
    if rs == [] {
      assert Put(rs, r)[1..] == [];
    } else if rs[0].entity != r.entity {
      PutEntries(rs[1..], r);
      assert Put(rs, r)[1..] == Put(rs[1..], r);
    } else {
      assert Put(rs, r)[1..] == rs[1..];
    }
  }

  lemma {:induction false} FileSplit(rs: seq<Record>, i: nat)
    requires i <= |rs|
    ensures File(rs) == File(rs[..i]) + File(rs[i..])
  {
    hide Encode;
    if i == 0 {
      assert rs[i..] == rs;
    } else {
      FileSplit(rs[1..], i - 1);
      assert rs[..i][1..] == rs[1..][..i - 1] && rs[i..] == rs[1..][i - 1..];
    }
  }

  lemma FileRecord(rs: seq<Record>, i: nat)
    requires i < |rs|
    ensures File(rs) == File(rs[..i]) + (Encode(rs[i]) + File(rs[i + 1..]))
  {
    FileSplit(rs, i);
    assert rs[i..][1..] == rs[i + 1..];
    hide Encode;
  }

  /** A record read where it was written. */
  lemma RecordRead(content: seq<byte>, pos: nat, r: Record)
    requires At(content, pos, Encode(r))
    ensures pos + HEADER + |r.blob| <= |content|
    ensures EntityAt(content, pos) == r.entity && SizeAt(content, pos) == |r.blob|
    ensures content[pos + HEADER..pos + HEADER + |r.blob|] == r.blob
  {
    var a, b, d := LE32(r.entity.etype), LE32(r.entity.keyhandle), LE32(|r.blob|);
    AtSplit(content, pos, Header(r), r.blob);
    AtSplit(content, pos, a + b + r.keyDigest + d + r.passHash, r.oldPassHash);
    AtSplit(content, pos, a + b + r.keyDigest + d, r.passHash);
    AtSplit(content, pos, a + b + r.keyDigest, d);
    AtSplit(content, pos, a + b, r.keyDigest);
    AtSplit(content, pos, a, b);
    LoadLE32At(content, pos, r.entity.etype);
    LoadLE32At(content, pos + 4, r.entity.keyhandle);
    LoadLE32At(content, pos + 28, |r.blob|);
    hide LE32, LoadLE32;
  }

  /** Each field of struct delegation_blob read back at its offset. */
  lemma HeaderFields(r: Record)
    ensures var h := Header(r);
            && LoadLE32(h, 0) == r.entity.etype && LoadLE32(h, 4) == r.entity.keyhandle
            && h[8..28] == r.keyDigest && LoadLE32(h, 28) == |r.blob|
            && h[32..52] == r.passHash && h[52..72] == r.oldPassHash
  {
  }

  lemma ScanSkipsOne(content: seq<byte>, pos: nat, r: Record, e: Entity)
    requires At(content, pos, Encode(r)) && r.entity != e
    ensures ScanFrom(content, e, pos) == ScanFrom(content, e, pos + |Encode(r)|)
  {
    RecordRead(content, pos, r);
    hide At, EntityAt, SizeAt, Header;
  }

  /** Records of other entities are skipped: the search goes on where they end. */
  lemma {:induction false} ScanSkips(content: seq<byte>, pos: nat, rs: seq<Record>, e: Entity)
    requires At(content, pos, File(rs)) && forall i :: 0 <= i < |rs| ==> rs[i].entity != e
    ensures ScanFrom(content, e, pos) == ScanFrom(content, e, pos + |File(rs)|)
    decreases |rs|
  {
    hide At, Encode, ScanFrom;
    if rs != [] {
      AtSplit(content, pos, Encode(rs[0]), File(rs[1..]));
      ScanSkipsOne(content, pos, rs[0], e);
      ScanSkips(content, pos + |Encode(rs[0])|, rs[1..], e);
    }
  }

  lemma EncodeLength(r: Record)
    ensures |Encode(r)| == HEADER + |r.blob|
  {
  }

  /** Behind records of other entities, a record of the entity is the one found. */
  lemma FoundBehind(content: seq<byte>, rs: seq<Record>, r: Record)
    requires At(content, 0, File(rs) + Encode(r)) && forall i :: 0 <= i < |rs| ==> rs[i].entity != r.entity
    ensures ScanFrom(content, r.entity, 0) == Found(|File(rs)|) && At(content, |File(rs)|, Encode(r))
  {
    hide At, File, Encode, EntityAt, SizeAt;
    AtSplit(content, 0, File(rs), Encode(r));
    ScanSkips(content, 0, rs, r.entity);
    RecordRead(content, |File(rs)|, r);
  }

  /** On a file of records a search finds the first one of the entity, or the end of the file. */
  lemma ScanFile(rs: seq<Record>, e: Entity)
    ensures var i := IndexOf(rs, e);
            && ScanFrom(File(rs), e, 0) == (if i < |rs| then Found(|File(rs[..i])|) else Ended(|File(rs)|))
            && (i < |rs| ==> At(File(rs), |File(rs[..i])|, Encode(rs[i])))
  {
    var i := IndexOf(rs, e);
    hide IndexOf, File, Encode, EntityAt, SizeAt;
    if i < |rs| {
      hide ScanFrom, At;
      FileRecord(rs, i);
      AtFront(File(rs[..i]), Encode(rs[i]), File(rs[i + 1..]));
      FoundBehind(File(rs), rs[..i], rs[i]);
    } else {
      ScanSkips(File(rs), 0, rs, e);
    }
  }

  lemma EntriesAt(rs: seq<Record>, e: Entity)
    ensures e in Entries(rs) <==> IndexOf(rs, e) < |rs|
    ensures IndexOf(rs, e) < |rs| ==> Entries(rs)[e] == rs[IndexOf(rs, e)].blob
  {
  }

  /** What a lookup in the map gives to a caller with a buffer of some size. */
  function Lookup(entries: map<Entity, seq<byte>>, e: Entity, bufferSize: nat): Answer {
    if e !in entries then Error(ERR_NOT_FOUND)
    else if bufferSize < |entries[e]| then Error(ERR_BUFFER)
    else Blob(entries[e])
  }

  /** On a file of records, getting a blob is a lookup in the map. */
  lemma GetIsLookup(rs: seq<Record>, e: Entity, bufferSize: nat)
    ensures Fetched(File(rs), e, bufferSize) == Lookup(Entries(rs), e, bufferSize)
  {
    var i := IndexOf(rs, e);
    hide File, Encode, EntityAt, SizeAt, ScanFrom, Entries, At, IndexOf;
    ScanFile(rs, e);
    EntriesAt(rs, e);
    if i < |rs| {
      RecordRead(File(rs), |File(rs[..i])|, rs[i]);
    }
  }

  /** When adding a record leaves a file of records: the entity is new, its blob keeps its size, or
      its record is the last and its blob gets no shorter. */
  predicate Fits(rs: seq<Record>, r: Record) {
    var i := IndexOf(rs, r.entity);
    || i == |rs|
    || |r.blob| == |rs[i].blob|
    || (i == |rs| - 1 && |r.blob| >= |rs[i].blob|)
  }

  /** Adding leaves exactly the file of the updated records when, and only when, the record fits. */
  lemma AddIsPutExactly(rs: seq<Record>, r: Record)
    ensures Added(File(rs), r) == File(Put(rs, r)) <==> Fits(rs, r)
  {
    var i := IndexOf(rs, r.entity);
    hide File, Encode, ScanFrom, IndexOf, At;
    ScanFile(rs, r.entity);
    if i == |rs| {
      AppendedFile(rs, r);
    } else {
      FileRecord(rs, i);
      FileRecord(Put(rs, r), i);
      assert Put(rs, r)[..i] == rs[..i] && Put(rs, r)[i + 1..] == rs[i + 1..];
      EncodeLength(r);
      EncodeLength(rs[i]);
      TailEmpty(rs, i);
      hide Overwrite;
      OverwriteExactly(File(rs[..i]), Encode(rs[i]), File(rs[i + 1..]), Encode(r));
    }
  }

  lemma AppendedFile(rs: seq<Record>, r: Record)
    ensures File(rs + [r]) == File(rs) + Encode(r)
  {
    FileSplit(rs + [r], |rs|);
    assert (rs + [r])[..|rs|] == rs && (rs + [r])[|rs|..] == [r];
    assert File([r]) == Encode(r) + [];
    hide Encode;
  }

  lemma TailEmpty(rs: seq<Record>, i: nat)
    requires i < |rs|
    ensures File(rs[i + 1..]) == [] <==> i == |rs| - 1
  {
  }

  /** Overwriting the middle of a file gives the same as replacing it only if the size is kept or
      nothing follows and it gets no shorter. */
  lemma OverwriteExactly(head: seq<byte>, gone: seq<byte>, tail: seq<byte>, added: seq<byte>)
    ensures Overwrite(head + (gone + tail), |head|, added) == head + (added + tail)
            <==> |added| == |gone| || (tail == [] && |added| >= |gone|)
  {
  }

  /** A blob just added to a file of records is what a search for its entity finds, whether or not
      the record fitted. */
  lemma GetAfterAdd(rs: seq<Record>, r: Record, bufferSize: nat)
    requires bufferSize >= |r.blob|
    ensures Fetched(Added(File(rs), r), r.entity, bufferSize) == Blob(r.blob)
  {
    var i := IndexOf(rs, r.entity);
    var content := Added(File(rs), r);
    hide IndexOf, File, Encode, ScanFrom, EntityAt, SizeAt, At, Added;
    AddedAt(rs, r);
    FoundBehind(content, rs[..i], r);
    RecordRead(content, |File(rs[..i])|, r);
  }

  lemma AddedAt(rs: seq<Record>, r: Record)
    ensures At(Added(File(rs), r), 0, File(rs[..IndexOf(rs, r.entity)]) + Encode(r))
  {
    var i := IndexOf(rs, r.entity);
    hide IndexOf, File, Encode, ScanFrom, EntityAt, SizeAt, Overwrite;
    ScanFile(rs, r.entity);
    FileSplit(rs, i);
    assert i == |rs| ==> rs[..i] == rs;
    OverwriteAt(File(rs), File(rs[..i]), Encode(r));
  }

  lemma OverwriteAt(content: seq<byte>, head: seq<byte>, added: seq<byte>)
    requires At(content, 0, head)
    ensures At(Overwrite(content, |head|, added), 0, head + added)
  {
  }

  // ----- Lookups after an addition that does not fit.

  /** The entities that a search from `pos` passes, whatever the file holds there. */
  function Named(content: seq<byte>, pos: nat): set<Entity>
    decreases |content| - pos
  {
    if pos + HEADER > |content| then {}
    else {EntityAt(content, pos)} + Named(content, pos + HEADER + SizeAt(content, pos))
  }

  lemma {:induction false} ScanIsNamed(content: seq<byte>, e: Entity, pos: nat)
    ensures ScanFrom(content, e, pos).Found? <==> e in Named(content, pos)
    decreases |content| - pos
  {
    if pos + HEADER <= |content| {
      ScanIsNamed(content, e, pos + HEADER + SizeAt(content, pos));
      hide EntityAt, SizeAt;
    }
  }

  lemma {:induction false} ScanBehind(front: seq<byte>, tail: seq<byte>, e: Entity, pos: nat)
    ensures match ScanFrom(tail, e, pos)
            case Found(at) => ScanFrom(front + tail, e, |front| + pos) == Found(|front| + at)
            case Ended(_) => ScanFrom(front + tail, e, |front| + pos).Ended?
    decreases |tail| - pos
  {
    if pos + HEADER <= |tail| {
      assert EntityAt(front + tail, |front| + pos) == EntityAt(tail, pos);
      assert SizeAt(front + tail, |front| + pos) == SizeAt(tail, pos);
      hide EntityAt, SizeAt;
      ScanBehind(front, tail, e, pos + HEADER + SizeAt(tail, pos));
    }
  }

  /** Whatever stands behind a file of records, the records are found as ever. */
  lemma FetchedBefore(rs: seq<Record>, tail: seq<byte>, e: Entity, bufferSize: nat)
    requires e in Entries(rs)
    ensures Fetched(File(rs) + tail, e, bufferSize) == Lookup(Entries(rs), e, bufferSize)
  {
    var i, content := IndexOf(rs, e), File(rs) + tail;
    hide File, Encode, EntityAt, SizeAt, ScanFrom, Entries, At, IndexOf;
    EntriesAt(rs, e);
    RecordBefore(rs, tail, i);
    FoundBehind(content, rs[..i], rs[i]);
    RecordRead(content, |File(rs[..i])|, rs[i]);
  }

  /** And an entity without a record is looked for in what stands behind. */
  lemma FetchedBehind(rs: seq<Record>, tail: seq<byte>, e: Entity, bufferSize: nat)
    requires e !in Entries(rs)
    ensures Fetched(File(rs) + tail, e, bufferSize) == Fetched(tail, e, bufferSize)
  {
    var front := File(rs);
    var content := front + tail;
    hide File, Encode, ScanFrom, Entries, At, IndexOf;
    EntriesAt(rs, e);
    AtStart(front, tail);
    ScanSkips(content, 0, rs, e);
    ScanBehind(front, tail, e, 0);
    FoundInside(tail, e, 0);
    var scan := ScanFrom(tail, e, 0);
    if scan.Found? {
      assert SizeAt(content, |front| + scan.pos) == SizeAt(tail, scan.pos);
      hide SizeAt, EntityAt;
      var from, size := scan.pos + HEADER, SizeAt(tail, scan.pos);
      if from + size <= |tail| {
        assert content[|front| + from..|front| + from + size] == tail[from..from + size];
      }
    }
  }

  lemma AtStart(a: seq<byte>, b: seq<byte>)
    ensures At(a + b, 0, a)
  {
  }

  lemma RecordBefore(rs: seq<Record>, tail: seq<byte>, i: nat)
    requires i < |rs|
    ensures At(File(rs) + tail, 0, File(rs[..i]) + Encode(rs[i]))
  {
    hide File, Encode, At;
    FileRecord(rs, i);
    var front, rest := File(rs[..i]) + Encode(rs[i]), File(rs[i + 1..]) + tail;
    assert File(rs) + tail == front + rest;
    AtStart(front, rest);
  }

  /** The records up to the one replaced, and those behind it. */
  function Front(rs: seq<Record>, r: Record): seq<Record> {
    rs[..IndexOf(rs, r.entity)] + [r]
  }

  function Behind(rs: seq<Record>, r: Record): seq<Record>
    requires IndexOf(rs, r.entity) < |rs|
  {
    rs[IndexOf(rs, r.entity) + 1..]
  }

  lemma PutSplit(rs: seq<Record>, r: Record)
    requires IndexOf(rs, r.entity) < |rs|
    ensures Put(rs, r) == Front(rs, r) + Behind(rs, r)
  {
    hide IndexOf;
    UpdateSplit(rs, IndexOf(rs, r.entity), r);
  }

  lemma UpdateSplit<T>(s: seq<T>, i: nat, x: T)
    requires i < |s|
    ensures s[i := x] == s[..i] + [x] + s[i + 1..]
  {
  }

  /** What an addition over a record leaves of that record and those behind it. */
  function Left(rs: seq<Record>, r: Record): seq<byte>
    requires IndexOf(rs, r.entity) < |rs|
  {
    var was := Encode(rs[IndexOf(rs, r.entity)]) + File(Behind(rs, r));
    if |Encode(r)| <= |was| then was[|Encode(r)|..] else []
  }

  lemma AddedSplit(rs: seq<Record>, r: Record)
    requires IndexOf(rs, r.entity) < |rs|
    ensures Added(File(rs), r) == File(Front(rs, r)) + Left(rs, r)
  {
    var i := IndexOf(rs, r.entity);
    hide File, Encode, ScanFrom, IndexOf, At, Overwrite;
    ScanFile(rs, r.entity);
    FileRecord(rs, i);
    AppendedFile(rs[..i], r);
    OverwriteFront(File(rs[..i]), Encode(rs[i]) + File(rs[i + 1..]), Encode(r));
  }

  lemma OverwriteFront(head: seq<byte>, was: seq<byte>, added: seq<byte>)
    ensures Overwrite(head + was, |head|, added) ==
            head + added + if |added| <= |was| then was[|added|..] else []
  {
  }

  lemma EntriesSplit(a: seq<Record>, b: seq<Record>, e: Entity)
    ensures e in Entries(a) ==> e in Entries(a + b) && Entries(a + b)[e] == Entries(a)[e]
    ensures e !in Entries(a) ==>
              (e in Entries(a + b) <==> e in Entries(b)) && (e in Entries(b) ==> Entries(a + b)[e] == Entries(b)[e])
  {
    if a == [] {
      assert a + b == b;
    } else {
      assert (a + b)[1..] == a[1..] + b;
      EntriesSplit(a[1..], b, e);
    }
  }

  /** A file answers as a map does, for every entity but the given ones and for buffers of any size. */
  ghost predicate Answers(content: seq<byte>, entries: map<Entity, seq<byte>>, except: set<Entity>) {
    forall e, n: nat :: e !in except ==> Fetched(content, e, n) == Lookup(entries, e, n)
  }

  lemma LookupAfterAdd(rs: seq<Record>, r: Record, e: Entity, bufferSize: nat)
    requires IndexOf(rs, r.entity) < |rs|
    ensures var front, behind := Entries(Front(rs, r)), Entries(Behind(rs, r));
            && (e in front ==>
                  Fetched(Added(File(rs), r), e, bufferSize) == Lookup(Entries(Put(rs, r)), e, bufferSize))
            && (e !in front ==>
                  && Fetched(Added(File(rs), r), e, bufferSize) == Fetched(Left(rs, r), e, bufferSize)
                  && Lookup(Entries(Put(rs, r)), e, bufferSize) == Lookup(behind, e, bufferSize))
  {
    var front, behind := Front(rs, r), Behind(rs, r);
    hide File, Fetched, Lookup, Entries, Left, Added, Put, IndexOf, Front, Behind;
    PutSplit(rs, r);
    AddedSplit(rs, r);
    EntriesSplit(front, behind, e);
    SameLookup(Entries(front + behind), Entries(if e in Entries(front) then front else behind), e, bufferSize);
    if e in Entries(front) {
      FetchedBefore(front, Left(rs, r), e, bufferSize);
    } else {
      FetchedBehind(front, Left(rs, r), e, bufferSize);
    }
  }

  lemma SameLookup(a: map<Entity, seq<byte>>, b: map<Entity, seq<byte>>, e: Entity, bufferSize: nat)
    requires (e in a <==> e in b) && (e in a ==> a[e] == b[e])
    ensures Lookup(a, e, bufferSize) == Lookup(b, e, bufferSize)
  {
  }

  /** After any addition over a record, the file answers as the updated map does exactly if what the
      addition left behind answers for the entities that only have a record there, or none. */
  lemma AddLookupsExactly(rs: seq<Record>, r: Record)
    requires IndexOf(rs, r.entity) < |rs|
    ensures Answers(Added(File(rs), r), Entries(Put(rs, r)), {})
            <==> Answers(Left(rs, r), Entries(Behind(rs, r)), Entries(Front(rs, r)).Keys)
  {
    var front, behind := Entries(Front(rs, r)), Entries(Behind(rs, r));
    hide File, Fetched, Lookup, Entries, Left, Added, Put, IndexOf, Front, Behind;
    if Answers(Added(File(rs), r), Entries(Put(rs, r)), {}) {
      forall e, n: nat | e !in front.Keys ensures Fetched(Left(rs, r), e, n) == Lookup(behind, e, n) {
        LookupAfterAdd(rs, r, e, n);
      }
    }
    if Answers(Left(rs, r), behind, front.Keys) {
      forall e, n: nat ensures Fetched(Added(File(rs), r), e, n) == Lookup(Entries(Put(rs, r)), e, n) {
        LookupAfterAdd(rs, r, e, n);
      }
    }
  }

  /** A last record that gets shorter leaves the end of its old blob behind. All lookups are those of
      the updated map exactly if that end seems to name no entity without a record; an end too short
      for a header names none. */
  lemma ShortenedLookupsExactly(rs: seq<Record>, r: Record)
    requires IndexOf(rs, r.entity) == |rs| - 1 && |r.blob| < |rs[|rs| - 1].blob|
    ensures var residue := rs[|rs| - 1].blob[|r.blob|..];
            && (Answers(Added(File(rs), r), Entries(Put(rs, r)), {}) <==> Named(residue, 0) <= Entries(rs).Keys)
            && (|residue| < HEADER ==> Named(residue, 0) == {})
  {
    var i, residue := |rs| - 1, rs[|rs| - 1].blob[|r.blob|..];
    var front := rs[..i] + [r];
    EncodedRest(rs[i], r);
    TailEmpty(rs, i);
    assert Encode(rs[i]) + [] == Encode(rs[i]);
    assert Left(rs, r) == residue;
    assert rs[i + 1..] == [] && Entries([]) == map[];
    PutEntries(rs, r);
    EntriesAt(rs, r.entity);
    assert Put(rs, r) == front;
    AddLookupsExactly(rs, r);
    hide File, Encode, Entries, Left, Added, Put, IndexOf, ScanFrom, SizeAt;
    forall e: Entity, n: nat ensures Fetched(residue, e, n) == Lookup(map[], e, n) <==> e !in Named(residue, 0) {
      ScanIsNamed(residue, e, 0);
      FoundInside(residue, e, 0);
    }
    if !(Named(residue, 0) <= Entries(rs).Keys) {
      var e :| e in Named(residue, 0) && e !in Entries(rs);
      assert Fetched(residue, e, 0) != Lookup(map[], e, 0);
    }
  }

  lemma EncodedRest(gone: Record, r: Record)
    requires |r.blob| <= |gone.blob|
    ensures |Encode(r)| <= |Encode(gone)| && Encode(gone)[|Encode(r)|..] == gone.blob[|r.blob|..]
  {
  }

  /** Whether or not a record fits, the entities whose records stand before it are looked up as ever. */
  lemma FrontKept(rs: seq<Record>, r: Record, e: Entity, bufferSize: nat)
    requires IndexOf(rs, e) < IndexOf(rs, r.entity)
    ensures Fetched(Added(File(rs), r), e, bufferSize) == Lookup(Entries(rs), e, bufferSize)
  {
    var i, j, content := IndexOf(rs, r.entity), IndexOf(rs, e), Added(File(rs), r);
    hide File, Encode, ScanFrom, EntityAt, SizeAt, At, Added, Entries, IndexOf;
    AddedAt(rs, r);
    EntriesAt(rs, e);
    AtSplit(content, 0, File(rs[..i]), Encode(r));
    FileRecord(rs[..i], j);
    assert rs[..i][..j] == rs[..j] && rs[..i][j] == rs[j];
    var rest := File(rs[..i][j + 1..]);
    assert File(rs[..i]) == (File(rs[..j]) + Encode(rs[j])) + rest;
    AtSplit(content, 0, File(rs[..j]) + Encode(rs[j]), rest);
    FoundBehind(content, rs[..j], rs[j]);
    RecordRead(content, |File(rs[..j])|, rs[j]);
  }

  /** A first record that grows by the size of the second takes its place. */
  lemma GrowthSwallows(a: Record, b: Record, r: Record)
    requires a.entity == r.entity && |r.blob| == |a.blob| + HEADER + |b.blob|
    ensures Added(File([a, b]), r) == File([r])
  {
    hide Header;
    ScanFile([a, b], r.entity);
    assert [a, b][..0] == [] && [a, b][1..] == [b] && [b][1..] == [] && [r][1..] == [];
    assert |File([a, b])| == |Encode(a)| + |Encode(b)|;
    assert File([r]) == Encode(r) + [];
    hide ScanFrom, At, File;
  }

  /** An addition that loses a record: the first of two empty blobs grows by the size of a header. */
  lemma AddLosesRecord()
    ensures var a := Record(Entity(1, 1), ZERO_DIGEST, ZERO_DIGEST, ZERO_DIGEST, []);
            var b, r := a.(entity := Entity(1, 2)), a.(blob := seq(HEADER, i => 0));
            && !Fits([a, b], r)
            && Lookup(Entries(Put([a, b], r)), b.entity, 0) == Blob([])
            && Fetched(Added(File([a, b]), r), b.entity, 0) == Error(ERR_NOT_FOUND)
  {
    var a := Record(Entity(1, 1), ZERO_DIGEST, ZERO_DIGEST, ZERO_DIGEST, []);
    var b, r := a.(entity := Entity(1, 2)), a.(blob := seq(HEADER, i => 0));
    hide Added, File, Fetched;
    GrowthSwallows(a, b, r);
    GetIsLookup([r], b.entity, 0);
    assert Put([a, b], r) == [r, b] && [r, b][1..] == [b] && [b][1..] == [] && [r][1..] == [];
    assert Entries([b]) == map[b.entity := []];
  }

  /** On a file that ends in bytes too few for a header, a new record goes behind them. */
  lemma AddBehindResidue(rs: seq<Record>, residue: seq<byte>, r: Record)
    requires |residue| < HEADER && IndexOf(rs, r.entity) == |rs|
    ensures Added(File(rs) + residue, r) == File(rs) + residue + Encode(r)
  {
    var content := File(rs) + residue;
    hide File, Encode, At, IndexOf, ScanFrom, Overwrite;
    AtStart(File(rs), residue);
    ScanSkips(content, 0, rs, r.entity);
    ShortScan(content, r.entity, |File(rs)|);
    OverwriteEnd(content, Encode(r));
  }

  lemma ShortScan(content: seq<byte>, e: Entity, pos: nat)
    requires pos <= |content| < pos + HEADER
    ensures ScanFrom(content, e, pos) == Ended(|content|)
  {
  }

  lemma OverwriteEnd(content: seq<byte>, added: seq<byte>)
    ensures Overwrite(content, |content|, added) == content + added
  {
  }

  // ----- Runs of additions.

  function AddedAll(content: seq<byte>, adds: seq<Record>): seq<byte>
    decreases adds
  {
    if adds == [] then content else AddedAll(Added(content, adds[0]), adds[1..])
  }

  function PutAll(rs: seq<Record>, adds: seq<Record>): seq<Record>
    decreases adds
  {
    if adds == [] then rs else PutAll(Put(rs, adds[0]), adds[1..])
  }

  function Updated(entries: map<Entity, seq<byte>>, adds: seq<Record>): map<Entity, seq<byte>>
    decreases adds
  {
    if adds == [] then entries else Updated(entries[adds[0].entity := adds[0].blob], adds[1..])
  }

  predicate AllFit(rs: seq<Record>, adds: seq<Record>)
    decreases adds
  {
    adds == [] || (Fits(rs, adds[0]) && AllFit(Put(rs, adds[0]), adds[1..]))
  }

  /** A run of additions that fit keeps the file a file of records, whose map is the one that the same
      updates give; with GetIsLookup, every later search is a lookup in that map. */
  lemma {:induction false} RunIsMap(rs: seq<Record>, adds: seq<Record>)
    requires AllFit(rs, adds)
    ensures AddedAll(File(rs), adds) == File(PutAll(rs, adds))
    ensures Entries(PutAll(rs, adds)) == Updated(Entries(rs), adds)
    decreases adds
  {
    if adds != [] {
      hide File, Added, Entries, Put;
      AddIsPutExactly(rs, adds[0]);
      PutEntries(rs, adds[0]);
      RunIsMap(Put(rs, adds[0]), adds[1..]);
    }
  }
}
