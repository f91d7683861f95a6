// gtest.cc: writing arbitrary text as XML CDATA. A section cannot contain "]]>", so the writer
// closes the section there, spells the three characters outside it, and opens a new one.
//
// The partner is a reader of element content after sections 2.4 and 2.7 of XML 1.0.
module CDataSection {
  import opened Common

  const OPEN := "<![CDATA["
  const CLOSE := "]]>"
  const GT := "&gt;"
  const SPLIT := "]]>]]&gt;<![CDATA["

  predicate ClosesAt(s: string, k: int) {
    0 <= k && k + 3 <= |s| && s[k] == ']' && s[k + 1] == ']' && s[k + 2] == '>'
  }

  /** Where strstr finds "]]>", or |s| when it does not occur. */
  function FindClose(s: string): (i: nat)
    ensures i <= |s| && (i < |s| ==> ClosesAt(s, i))
    ensures forall k :: 0 <= k < i ==> !ClosesAt(s, k)
  {
    if s == "" || ClosesAt(s, 0) then 0 else
      var i := FindClose(s[1..]);
      assert forall k :: 0 < k ==> (ClosesAt(s, k) <==> ClosesAt(s[1..], k - 1));
      i + 1
  }

  // ---- the reader ----

  /**
   * The text of content made of CDATA sections, character data and the reference &gt;. A section runs
   * to the first "]]>"; character data holds no '<' and no other '&', and "]]>" may not occur in it.
   */
  ghost function Read(xml: string): (text: Option<string>)
    decreases |xml|
  {
    if xml == "" then Some("")
    else if "<![CDATA[" <= xml then
      var rest := xml[9..];
      var end := FindClose(rest);
      if end == |rest| then None else Prepend(rest[..end], Read(rest[end + 3..]))
    else if "&gt;" <= xml then Prepend(">", Read(xml[4..]))
    else if xml[0] == '<' || xml[0] == '&' || ClosesAt(xml, 0) then None
    else Prepend([xml[0]], Read(xml[1..]))
  }

  ghost function Prepend(s: string, text: Option<string>): Option<string> {
    if text.Some? then Some(s + text.value) else None
  }

  // ---- the writer ----

  /** What the loop writes from a segment on, once a section is open. */
  ghost function Written(segment: string): string
    decreases |segment|
  {
    var next := FindClose(segment);
    if next == |segment| then segment + CLOSE
    else segment[..next] + (SPLIT + Written(segment[next + 3..]))
  }

  /** Every text is read back from what is written for it. */
  method OutputXmlCDataSection(data: string) returns (stream: string)
    ensures Read(stream) == Some(data)
  {
    hide Read, Written, FindClose, ClosesAt;
    var segment := 0;
    stream := OPEN;
    assert data[0..] == data;
    while true
      invariant 0 <= segment <= |data| && stream + Written(data[segment..]) == OPEN + Written(data)
      decreases |data| - segment
    {
      var rest := data[segment..];
      var next := FindClose(rest);
      WrittenUnfolds(rest);
      if next < |rest| {
        Reassociate(stream, rest[..next], SPLIT, Written(rest[next + 3..]));
        stream := stream + rest[..next];
        stream := stream + SPLIT;
        assert rest[next + 3..] == data[segment + next + 3..];
        segment := segment + next + 3;
      } else {
        Reassociate(stream, rest, CLOSE, "");
        stream := stream + rest;
        break;
      }
    }
    stream := stream + CLOSE;
    WrittenReadsBack(data);
  }

  lemma CloseFits(s: string)
    ensures FindClose(s) < |s| ==> FindClose(s) + 3 <= |s|
  {
  }

  lemma WrittenUnfolds(rest: string)
    ensures FindClose(rest) == |rest| ==> Written(rest) == rest + CLOSE
    ensures FindClose(rest) < |rest| ==>
              FindClose(rest) + 3 <= |rest|
              && Written(rest) == rest[..FindClose(rest)] + (SPLIT + Written(rest[FindClose(rest) + 3..]))
  {
    CloseFits(rest);
    hide FindClose, ClosesAt;
  }

  lemma Reassociate(a: string, b: string, c: string, d: string)
    ensures a + (b + (c + d)) == ((a + b) + c) + d
    ensures a + (b + c) == (a + b) + c
  {
  }

  ghost predicate NeverCloses(s: string) {
    forall k :: !ClosesAt(s, k)
  }

  /** A closing mark after text that holds none is the first one, whatever brackets the text ends in. */
  lemma FirstClose(s: string, tail: string)
    requires NeverCloses(s)
    ensures FindClose(s + (CLOSE + tail)) == |s|
  {
    var t := s + (CLOSE + tail);
    assert t[|s|] == ']' && t[|s| + 1] == ']' && t[|s| + 2] == '>';
    assert ClosesAt(t, |s|);
    forall k | 0 <= k < |s| ensures !ClosesAt(t, k) {
      assert !ClosesAt(s, k);
    }
  }

  lemma OpenedReads(rest: string)
    ensures Read(OPEN + rest) == var end := FindClose(rest);
                                 if end == |rest| then None else Prepend(rest[..end], Read(rest[end + 3..]))
  {
    hide FindClose, ClosesAt;
    assert (OPEN + rest)[9..] == rest;
  }

  lemma SectionReads(s: string, tail: string)
    requires NeverCloses(s)
    ensures Read(OPEN + (s + (CLOSE + tail))) == Prepend(s, Read(tail))
  {
    var rest := s + (CLOSE + tail);
    FirstClose(s, tail);
    hide FindClose, ClosesAt, NeverCloses;
    assert rest[..|s|] == s && rest[|s| + 3..] == tail;
    OpenedReads(rest);
  }

  lemma {:induction false} WrittenReadsBack(segment: string)
    ensures Read(OPEN + Written(segment)) == Some(segment)
    decreases |segment|
  {
    var next := FindClose(segment);
    BeforeFirstClose(segment);
    hide Read, FindClose, ClosesAt, NeverCloses;
    if next == |segment| {
      LastSectionReads(segment);
    } else {
      var later := segment[next + 3..];
      WrittenReadsBack(later);
      SplitReads(segment[..next], later, Written(later));
      assert segment == segment[..next] + (CLOSE + later);
    }
  }

  lemma BeforeFirstClose(segment: string)
    ensures NeverCloses(segment[..FindClose(segment)])
    ensures FindClose(segment) == |segment| ==> NeverCloses(segment)
    ensures FindClose(segment) < |segment| ==> FindClose(segment) + 3 <= |segment|
                                               && segment[FindClose(segment)..][..3] == CLOSE
  {
    var before := segment[..FindClose(segment)];
    forall k ensures !ClosesAt(before, k) {
      assert ClosesAt(before, k) ==> ClosesAt(segment, k);
    }
    assert FindClose(segment) == |segment| ==> before == segment;
  }

  lemma LastSectionReads(segment: string)
    requires NeverCloses(segment)
    ensures Read(OPEN + (segment + CLOSE)) == Some(segment)
  {
    SectionReads(segment, "");
    EmptyReads();
    assert CLOSE + "" == CLOSE && segment + "" == segment;
  }

  /** Where the writer splits, the reader sees the closing mark as text and goes on in the next section. */
  lemma SplitReads(before: string, later: string, written: string)
    requires NeverCloses(before) && Read(OPEN + written) == Some(later)
    ensures Read(OPEN + (before + (SPLIT + written))) == Some(before + (CLOSE + later))
  {
    hide Read;
    var xml := OPEN + written;
    BracketsRead(xml, later);
    SectionReads(before, "]]&gt;" + xml);
    assert SPLIT + written == CLOSE + ("]]&gt;" + xml);
  }

  lemma EmptyReads()
    ensures Read("") == Some("")
  {
  }

  lemma CharReads(c: char, tail: string, text: string)
    requires Read(tail) == Some(text) && c != '<' && c != '&' && !ClosesAt([c] + tail, 0)
    ensures Read([c] + tail) == Some([c] + text)
  {
    assert ([c] + tail)[1..] == tail;
  }

  lemma GtReads(tail: string, text: string)
    requires Read(tail) == Some(text)
    ensures Read(GT + tail) == Some(">" + text)
  {
    assert (GT + tail)[|GT|..] == tail && (GT + tail)[0] == '&';
  }

  lemma BracketsRead(tail: string, text: string)
    requires Read(tail) == Some(text)
    ensures Read("]]&gt;" + tail) == Some(CLOSE + text)
  {
    hide Read;
    GtReads(tail, text);
    CharReads(']', GT + tail, ">" + text);
    CharReads(']', "]" + (GT + tail), "]" + (">" + text));
    assert "]]&gt;" + tail == "]" + ("]" + (GT + tail));
    assert CLOSE + text == "]" + ("]" + (">" + text));
  }
}
