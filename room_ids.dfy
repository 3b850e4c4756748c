/**
 * Room identifiers. A room id is conventionally `<candidateName>-<sessionId>`;
 * the server recovers both parts by splitting on the delimiter `-` and taking
 * segments 0 and 1, with `"sessionid"` standing in for a missing or empty
 * session segment.
 */
module RoomIds {

  const Delimiter: char := '-'
  const DefaultSession: string := "sessionid"

  /** The two names recovered from a room id. */
  datatype RoomKey = RoomKey(candidateName: string, sessionId: string)

  /** Concatenation of `parts` with the delimiter between consecutive parts. */
  function JoinParts(parts: seq<string>): string
    requires |parts| >= 1
  {
    if |parts| == 1 then parts[0] else parts[0] + [Delimiter] + JoinParts(parts[1..])
  }

  /**
   * `String.prototype.split("-")`: the maximal delimiter-free segments of `s`,
   * one more than there are delimiters; joining them back gives `s`.
   */
  function Split(s: string): (parts: seq<string>)
    ensures |parts| >= 1
    ensures forall i :: 0 <= i < |parts| ==> Delimiter !in parts[i]
    ensures JoinParts(parts) == s
    decreases |s|
  {
    if |s| == 0 then [""]
    else
      var rest := Split(s[1..]);
      if s[0] == Delimiter then
        [""] + rest
      else
        var parts := [[s[0]] + rest[0]] + rest[1..];
        assert parts[1..] == rest[1..];
        parts
  }

  /**
   * The room-id parse of the `join` handler: the candidate is segment 0, the
   * session is segment 1 unless that segment is absent or empty. The candidate
   * is exactly the text before the first delimiter.
   */
  function ParseRoomId(roomId: string): (key: RoomKey)
    ensures Delimiter !in key.candidateName
    ensures key.candidateName <= roomId
    ensures |key.candidateName| == |roomId| || roomId[|key.candidateName|] == Delimiter
    ensures key.sessionId != "" && Delimiter !in key.sessionId
  {
    var parts := Split(roomId);
    assert |parts| > 1 ==> JoinParts(parts) == parts[0] + [Delimiter] + JoinParts(parts[1..]);
    var session := if |parts| > 1 && parts[1] != "" then parts[1] else DefaultSession;
    RoomKey(parts[0], session)
  }

  /** A string without delimiters is a single segment. */
  lemma {:induction false} SplitNoDelimiter(s: string)
    requires Delimiter !in s
    ensures Split(s) == [s]
    decreases |s|
  {
    if |s| > 0 {
      SplitNoDelimiter(s[1..]);
      assert [s[0]] + s[1..] == s;
    }
  }

  /** Splitting at the first delimiter peels off the text before it as segment 0. */
  lemma {:induction false} SplitAtFirstDelimiter(c: string, rest: string)
    requires Delimiter !in c
    ensures Split(c + [Delimiter] + rest) == [c] + Split(rest)
    decreases |c|
  {
    if |c| == 0 {
      assert c + [Delimiter] + rest == [Delimiter] + rest;
      assert (c + [Delimiter] + rest)[1..] == rest;
    } else {
      var s := c + [Delimiter] + rest;
      assert s[0] == c[0] && s[1..] == c[1..] + [Delimiter] + rest;
      SplitAtFirstDelimiter(c[1..], rest);
      var tail := Split(s[1..]);
      assert tail[0] == c[1..] && tail[1..] == Split(rest);
      assert [c[0]] + c[1..] == c;
    }
  }

  /** Split is the inverse of JoinParts on delimiter-free segments. */
  lemma {:induction false} SplitJoinParts(parts: seq<string>)
    requires |parts| >= 1
    requires forall i :: 0 <= i < |parts| ==> Delimiter !in parts[i]
    ensures Split(JoinParts(parts)) == parts
  {
    if |parts| == 1 {
      SplitNoDelimiter(parts[0]);
    } else {
      SplitJoinParts(parts[1..]);
      SplitAtFirstDelimiter(parts[0], JoinParts(parts[1..]));
      assert [parts[0]] + parts[1..] == parts;
    }
  }

  /** Segment 0 of `s + tail` is `s` when `s` has no delimiter and `tail` is empty or starts with one. */
  lemma SplitHead(s: string, tail: string)
    requires Delimiter !in s
    requires tail == [] || tail[0] == Delimiter
    ensures Split(s + tail)[0] == s
  {
    if tail == [] {
      assert s + tail == s;
      SplitNoDelimiter(s);
    } else {
      assert s + tail == s + [Delimiter] + tail[1..];
      SplitAtFirstDelimiter(s, tail[1..]);
    }
  }

  /** `candidate-session...` parses back to its candidate and (non-empty) session. */
  lemma ParseComposedRoomId(candidate: string, session: string, tail: string)
    requires Delimiter !in candidate && Delimiter !in session && session != ""
    requires tail == [] || tail[0] == Delimiter
    ensures ParseRoomId(candidate + [Delimiter] + session + tail) == RoomKey(candidate, session)
  {
    assert candidate + [Delimiter] + session + tail == candidate + [Delimiter] + (session + tail);
    SplitAtFirstDelimiter(candidate, session + tail);
    SplitHead(session, tail);
  }

  /** A room id without a delimiter is all candidate, with the default session. */
  lemma ParseBareRoomId(candidate: string)
    requires Delimiter !in candidate
    ensures ParseRoomId(candidate) == RoomKey(candidate, DefaultSession)
  {
    SplitNoDelimiter(candidate);
  }

  /** An empty session segment (`alice-` or `alice--x`) falls back to the default session. */
  lemma ParseEmptySessionSegment(candidate: string, tail: string)
    requires Delimiter !in candidate
    requires tail == [] || tail[0] == Delimiter
    ensures ParseRoomId(candidate + [Delimiter] + tail) == RoomKey(candidate, DefaultSession)
  {
    SplitAtFirstDelimiter(candidate, tail);
    SplitHead([], tail);
    assert [] + tail == tail;
  }

  /** The worked examples: `alice-s1` and `alice`. */
  lemma ParseExamples()
    ensures ParseRoomId("alice-s1") == RoomKey("alice", "s1")
    ensures ParseRoomId("alice") == RoomKey("alice", DefaultSession)
  {
    ParseComposedRoomId("alice", "s1", "");
    assert "alice" + [Delimiter] + "s1" + "" == "alice-s1";
    ParseBareRoomId("alice");
  }
}
