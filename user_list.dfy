/**
 * The `/users` reply: a registered-user listing longer than one message
 * allows is split into consecutive pieces of at most `ChunkSize` characters.
 * A character here stands for one UTF-16 code unit, the unit of a
 * JavaScript string's `length` and `slice`.
 */
module UserList {

  /** The largest piece sent as one message. */
  const ChunkSize: nat := 4000

  /** The pieces joined back together, in order. */
  function Concat(pieces: seq<string>): (joined: string)
  {
    if pieces == [] then [] else pieces[0] + Concat(pieces[1..])
  }

  /** Appending a piece at the end appends its text. */
  lemma {:induction false} ConcatSnoc(pieces: seq<string>, last: string)
    ensures Concat(pieces + [last]) == Concat(pieces) + last
  {
    if pieces != [] {
      assert (pieces + [last])[1..] == pieces[1..] + [last];
      ConcatSnoc(pieces[1..], last);
    }
  }

  /**
   * `pieces` cut `s` into full pieces of `ChunkSize` followed by one
   * non-empty final piece of at most `ChunkSize`.
   */
  ghost predicate ChunkedAs(pieces: seq<string>, s: string)
  {
    && Concat(pieces) == s
    && pieces != []
    && (forall i :: 0 <= i < |pieces| - 1 ==> |pieces[i]| == ChunkSize)
    && 0 < |pieces[|pieces| - 1]| <= ChunkSize
  }

  /** There is only one way to cut a string like that. */
  lemma {:induction false} ChunkingIsUnique(p: seq<string>, q: seq<string>, s: string)
    requires ChunkedAs(p, s) && ChunkedAs(q, s)
    ensures p == q
    decreases |s|
  {
    if |p| == 1 || |q| == 1 {
      SingleChunk(p, s);
      SingleChunk(q, s);
    } else {
      assert Concat(p) == p[0] + Concat(p[1..]);
      assert Concat(q) == q[0] + Concat(q[1..]);
      assert p[0] == s[..ChunkSize] == q[0];
      assert ChunkedAs(p[1..], s[ChunkSize..]) by {
        assert forall i :: 0 <= i < |p[1..]| - 1 ==> p[1..][i] == p[i + 1];
      }
      assert ChunkedAs(q[1..], s[ChunkSize..]) by {
        assert forall i :: 0 <= i < |q[1..]| - 1 ==> q[1..][i] == q[i + 1];
      }
      ChunkingIsUnique(p[1..], q[1..], s[ChunkSize..]);
      assert p == [p[0]] + p[1..] && q == [q[0]] + q[1..];
    }
  }

  /** A chunking has a single piece exactly when the string fits in one. */
  lemma {:induction false} SingleChunk(p: seq<string>, s: string)
    requires ChunkedAs(p, s)
    ensures |p| == 1 <==> |s| <= ChunkSize
    ensures |p| == 1 ==> p == [s]
  {
    if |p| == 1 {
      assert Concat(p) == p[0] + Concat(p[1..]);
      assert Concat(p[1..]) == [];
      assert p[0] + [] == p[0];
      assert p == [p[0]];
    } else {
      assert Concat(p) == p[0] + Concat(p[1..]);
      assert |p[0]| == ChunkSize;
      ConcatLast(p[1..]);
    }
  }

  /** The joined pieces are at least as long as the last one. */
  lemma {:induction false} ConcatLast(p: seq<string>)
    requires p != []
    ensures |Concat(p)| >= |p[|p| - 1]|
  {
    if |p| > 1 {
      ConcatLast(p[1..]);
    }
  }

  /**
   * The messages the `/users` listing is sent as: the listing itself when
   * it has at most `ChunkSize` characters, otherwise its consecutive
   * slices of `ChunkSize` characters (the last one possibly shorter).
   */
  method SplitUserList(userList: string) returns (messages: seq<string>)
    ensures Concat(messages) == userList
    ensures forall i :: 0 <= i < |messages| ==> |messages[i]| <= ChunkSize
    ensures |userList| <= ChunkSize ==> messages == [userList]
    ensures |userList| > ChunkSize ==> |messages| > 1 && ChunkedAs(messages, userList)
  {
    if |userList| <= ChunkSize {
      return [userList];
    }
    var chunks: seq<string> := [];
    var i := 0;
    while i < |userList|
      invariant i == ChunkSize * |chunks|
      invariant |chunks| > 0 ==> i - ChunkSize < |userList|
      invariant Concat(chunks) == userList[..if i < |userList| then i else |userList|]
      invariant forall k :: 0 <= k < |chunks| ==> 0 < |chunks[k]| <= ChunkSize
      invariant forall k :: 0 <= k < |chunks| && (k < |chunks| - 1 || i <= |userList|) ==>
        |chunks[k]| == ChunkSize
    {
      var end := if i + ChunkSize < |userList| then i + ChunkSize else |userList|;
      ConcatSnoc(chunks, userList[i..end]);
      assert userList[..i] + userList[i..end] == userList[..end];
      chunks := chunks + [userList[i..end]];
      i := i + ChunkSize;
    }
    assert userList[..|userList|] == userList;
    messages := chunks;
  }
}
