/**
 Where things are in a written file: every string reference slices its string out of the blob, and
 the section table is right for exactly the sections described by `LayoutExactly`.
 */
module EdtLayout {
  import opened Prelude
  import opened EdtBytes
  import opened EdtIr
  import opened EdtTransform
  import opened EdtWriter

  // ---------- the string table ----------

  lemma {:induction false} JoinedAt(strings: seq<Str>, i: nat)
    requires i < |strings|
    ensures At(Joined(strings), TotalLen(strings[..i]), strings[i])
  {
    var n := |strings| - 1;
    var front := Joined(strings[..n]);
    if i < n {
      JoinedAt(strings[..n], i);
      assert strings[..n][..i] == strings[..i];
      AtLeft(front, strings[n], TotalLen(strings[..i]), strings[i]);
    } else {
      AtAll(strings[n]);
      AtRight(front, strings[n], 0, strings[n]);
    }
  }

  lemma {:induction false} BlobHolds(sections: seq<Listed>, i: nat)
    requires i < |sections|
    ensures At(Blob(sections), Pre(sections[..i]), Joined(sections[i].strings))
  {
    var n := |sections| - 1;
    var front, last := Blob(sections[..n]), Joined(sections[n].strings);
    if i < n {
      BlobHolds(sections[..n], i);
      assert sections[..n][..i] == sections[..i];
      AtLeft(front, last, Pre(sections[..i]), Joined(sections[i].strings));
    } else {
      AtAll(last);
      AtRight(front, last, 0, last);
    }
  }

  /** A reference of section `i`, rebased by the running offset, slices out the very string
      `search_string` finds inside the section. */
  lemma RebasedReference(sections: seq<Listed>, i: nat, r: EdtValue, s: Str)
    requires i < |sections| && RefersTo(r, sections[i].strings, s)
    ensures r.ESeq? && r.len == |s| && At(Blob(sections), r.offset + Pre(sections[..i]), s)
    ensures Search(sections[i].strings, 0, r.offset, r.len) == Some(s)
  {
    hide At, Joined, Blob, Pre, TotalLen, Search;
    var strings := sections[i].strings;
    var at :| 0 <= at < |strings| && IsAt(r, strings, s, at);
    JoinedAt(strings, at);
    BlobHolds(sections, i);
    AtWithin(Blob(sections), Pre(sections[..i]), Joined(strings), r.offset, s);
    SearchFindsReferent(r, strings, s);
  }

  // ---------- record sizes ----------

  predicate WellSized(v: EdtValue) {
    match v case EInt(len, i) => len == i.Width() case EFloat(len, f) => len == f.Width() case ESeq(_, _) => true
  }

  ghost predicate AllSized(records: seq<Record>) {
    forall i :: 0 <= i < |records| ==> WellSized(records[i].value)
  }

  /** String values among the records. */
  function SeqCount(records: seq<Record>): nat {
    if records == [] then 0
    else SeqCount(records[..|records| - 1]) + if records[|records| - 1].value.ESeq? then 1 else 0
  }

  /** One-byte integers among the records. */
  function ByteCount(records: seq<Record>): nat {
    if records == [] then 0
    else ByteCount(records[..|records| - 1]) + if IsByte(records[|records| - 1].value) then 1 else 0
  }

  predicate IsByte(v: EdtValue) { v.EInt? && v.i.IByte? }

  lemma RecordLength(r: Record, pre: nat, big: bool)
    requires WellSized(r.value)
    ensures |RecordBytes(r, pre, big)| == AccountedFor(r.value)
              + (if IsByte(r.value) then 7 else 0) - (if r.value.ESeq? then 1 else 0)
    ensures AccountedFor(r.value) >= if r.value.ESeq? then 35 else 20
  {
    assert |RecordBytes(r, pre, big)| == 17 + |ValueBytes(r.value, pre, big)|;
  }

  lemma {:induction false} Sizes(records: seq<Record>, pre: nat, big: bool)
    requires AllSized(records)
    ensures Accounted(records) + 7 * ByteCount(records) == |Stream(records, pre, big)| + SeqCount(records)
    ensures |Stream(records, pre, big)| >= 34 * SeqCount(records) + 27 * ByteCount(records)
  {
    if records != [] {
      var r := records[|records| - 1];
      Sizes(records[..|records| - 1], pre, big);
      assert WellSized(r.value);
      RecordLength(r, pre, big);
      hide RecordBytes, AccountedFor;
    }
  }

  /** The stored size is the written size exactly when there are seven string values for each
      one-byte integer and fewer than 256 bytes. */
  lemma SizeExactly(records: seq<Record>, pre: nat, big: bool)
    requires AllSized(records)
    ensures Accounted(records) % 256 == |Stream(records, pre, big)|
       <==> |Stream(records, pre, big)| < 256 && SeqCount(records) == 7 * ByteCount(records)
  {
    Sizes(records, pre, big);
    WrapsBack(Accounted(records), |Stream(records, pre, big)|, SeqCount(records), ByteCount(records));
    hide *;
  }

  lemma WrapsBack(a: nat, b: nat, strings: nat, bytes: nat)
    requires a + 7 * bytes == b + strings && b >= 34 * strings + 27 * bytes
    ensures a % 256 == b <==> b < 256 && strings == 7 * bytes
  {
    if b < 256 && a % 256 == b {
      assert -64 < a - b < 8;
      SameRemainder(a, b);
    }
  }

  lemma SameRemainder(a: nat, b: nat)
    requires b < 256 && a % 256 == b && -256 < a - b < 256
    ensures a == b
  {
  }

  // ---------- the section table ----------

  lemma TableEntryLength(l: Listed, before: seq<Listed>, n: nat, big: bool)
    ensures |TableEntryBytes(EntryOf(l, before, n), big)|
         == 38 + if NameLen(l) > NAME_FIELD then NameLen(l) - NAME_FIELD else 0
  {
    hide StoredOffset, Size, Records;
    assert |NameOf(l)| == NameLen(l);
  }

  lemma {:induction false} TableLength(sections: seq<Listed>, k: nat, big: bool)
    requires k <= |sections|
    ensures |TableBytes(sections, k, big)| == 38 * k + Excess(sections[..k])
  {
    hide TableEntryBytes, EntryOf, NameLen;
    if k > 0 {
      TableLength(sections, k - 1, big);
      assert sections[..k][..k - 1] == sections[..k - 1];
      TableEntryLength(sections[k - 1], sections[..k - 1], |sections|, big);
    }
  }

  /** The length of `NameOf(l)`. */
  function NameLen(l: Listed): nat {
    if NameInBounds(l) then l.name.len else 0
  }

  /** By how much names overflow their field of 17 bytes. */
  function Excess(sections: seq<Listed>): nat {
    if sections == [] then 0
    else
      var len := NameLen(sections[|sections| - 1]);
      Excess(sections[..|sections| - 1]) + if len > NAME_FIELD then len - NAME_FIELD else 0
  }

  lemma {:induction false} NoExcess(sections: seq<Listed>)
    ensures Excess(sections) == 0 <==> forall i :: 0 <= i < |sections| ==> NameLen(sections[i]) <= NAME_FIELD
  {
    hide NameLen;
    if sections != [] {
      var n := |sections| - 1;
      var front := sections[..n];
      NoExcess(front);
      if Excess(front) == 0 && NameLen(sections[n]) <= NAME_FIELD {
        forall i | 0 <= i < |sections| ensures NameLen(sections[i]) <= NAME_FIELD {
          if i < n { assert sections[i] == front[i]; }
        }
      } else if Excess(front) != 0 {
        var i :| 0 <= i < |front| && NameLen(front[i]) > NAME_FIELD;
        assert sections[i] == front[i];
      }
    }
  }

  /** Where the records of section `i` start in the file; the blob starts at `RecordStart(n)`. */
  function RecordStart(sections: seq<Listed>, i: nat, big: bool): nat
    requires i <= |sections|
  {
    24 + |SectionHeaderBytes(sections, big)| + |AllStreams(sections[..i], big)|
  }

  function StreamAt(sections: seq<Listed>, i: nat, big: bool): seq<Byte>
    requires i < |sections|
  {
    SectionStream(sections[i], Pre(sections[..i]), big)
  }

  lemma {:induction false} StreamsHold(sections: seq<Listed>, i: nat, big: bool)
    requires i < |sections|
    ensures At(AllStreams(sections, big), |AllStreams(sections[..i], big)|, StreamAt(sections, i, big))
  {
    hide SectionStream;
    var n := |sections| - 1;
    var front, last := AllStreams(sections[..n], big), StreamAt(sections, n, big);
    assert AllStreams(sections, big) == front + last;
    if i < n {
      StreamsHold(sections[..n], i, big);
      assert sections[..n][..i] == sections[..i];
      assert StreamAt(sections[..n], i, big) == StreamAt(sections, i, big);
      AtLeft(front, last, |AllStreams(sections[..i], big)|, StreamAt(sections, i, big));
    } else {
      AtAll(last);
      AtRight(front, last, 0, last);
    }
  }

  /** The records of section `i` and the blob are where `RecordStart` says. */
  lemma FileHolds(sections: seq<Listed>, i: nat, big: bool)
    requires i <= |sections|
    ensures At(FileBytes(sections, big), RecordStart(sections, i, big),
               if i == |sections| then Blob(sections) else StreamAt(sections, i, big))
  {
    hide HeaderBytes, SectionHeaderBytes, AllStreams, StreamAt, Blob, At;
    var start := HeaderBytes(|sections|, big) + SectionHeaderBytes(sections, big);
    var streams, blob := AllStreams(sections, big), Blob(sections);
    if i == |sections| {
      assert sections[..i] == sections;
      AtAll(blob);
      AtRight(start + streams, blob, 0, blob);
    } else {
      StreamsHold(sections, i, big);
      AtMiddle(start, streams, blob, |AllStreams(sections[..i], big)|, StreamAt(sections, i, big));
    }
  }

  lemma AtMiddle(a: seq<Byte>, b: seq<Byte>, c: seq<Byte>, pos: nat, piece: seq<Byte>)
    requires At(b, pos, piece)
    ensures At(a + b + c, |a| + pos, piece)
  {
    AtRight(a, b, pos, piece);
    AtLeft(a + b, c, |a| + pos, piece);
  }

  lemma HeaderLength(sections: seq<Listed>, big: bool)
    ensures 24 + |SectionHeaderBytes(sections, big)|
         == 24 + (if big then 2 else 1) + 38 * (|sections| + 1) + Excess(sections)
  {
    TableLength(sections, |sections|, big);
    assert sections[..|sections|] == sections;
  }

  /** Offsets and sizes in the table are the true ones, for every section and for the blob. */
  ghost predicate LayoutRight(sections: seq<Listed>, big: bool) {
    forall i :: 0 <= i <= |sections| ==> EntryRight(sections, i, big)
  }

  ghost predicate EntryRight(sections: seq<Listed>, i: nat, big: bool)
    requires i <= |sections|
  {
    && StoredOffset(sections[..i], |sections|) == RecordStart(sections, i, big)
    && (i < |sections| ==> Size(sections[i]) == |StreamAt(sections, i, big)|)
  }

  ghost predicate RecordsFit(l: Listed) {
    var records := Records(l.entries);
    |SectionStream(l, 0, false)| < 256 && SeqCount(records) == 7 * ByteCount(records)
  }

  lemma SizeRight(sections: seq<Listed>, i: nat, big: bool)
    requires i < |sections| && AllSized(Records(sections[i].entries))
    ensures Size(sections[i]) == |StreamAt(sections, i, big)| <==> RecordsFit(sections[i])
  {
    var records := Records(sections[i].entries);
    SizeExactly(records, Pre(sections[..i]), big);
    Sizes(records, Pre(sections[..i]), big);
    Sizes(records, 0, false);
  }

  lemma {:induction false} OffsetsFollow(sections: seq<Listed>, i: nat, big: bool)
    requires i <= |sections| && !big && Excess(sections) == 0
    requires forall j :: 0 <= j < i ==> Size(sections[j]) == |StreamAt(sections, j, big)|
    ensures StoredOffset(sections[..i], |sections|) == RecordStart(sections, i, big)
  {
    HeaderLength(sections, big);
    if i > 0 {
      OffsetsFollow(sections, i - 1, big);
      assert sections[..i][..i - 1] == sections[..i - 1];
    }
  }

  /** The table of a written file is right if and only if the file is little-endian, every name
      fits its field, and in every section the record bytes stay under 256 and the sizes of string
      values and one-byte integers cancel. */
  lemma LayoutExactly(sections: seq<Listed>, big: bool)
    requires forall i :: 0 <= i < |sections| ==> AllSized(Records(sections[i].entries))
    ensures LayoutRight(sections, big)
       <==> && !big
            && (forall i :: 0 <= i < |sections| ==> NameLen(sections[i]) <= NAME_FIELD)
            && (forall i :: 0 <= i < |sections| ==> RecordsFit(sections[i]))
  {
    NoExcess(sections);
    HeaderLength(sections, big);
    forall i | 0 <= i < |sections|
      ensures Size(sections[i]) == |StreamAt(sections, i, big)| <==> RecordsFit(sections[i])
    {
      SizeRight(sections, i, big);
    }
    if LayoutRight(sections, big) {
      assert EntryRight(sections, 0, big);
      assert sections[..0] == [];
      forall i | 0 <= i < |sections| ensures RecordsFit(sections[i]) {
        assert EntryRight(sections, i, big);
      }
    } else if !big && Excess(sections) == 0 && forall i :: 0 <= i < |sections| ==> RecordsFit(sections[i]) {
      forall i | 0 <= i <= |sections| ensures EntryRight(sections, i, big) {
        OffsetsFollow(sections, i, big);
      }
    }
  }
}
