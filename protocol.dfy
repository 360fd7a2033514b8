/** What the server sends to a socket, and how sockets are named. */
module Protocol {

  /** A connected socket; process-local and not persisted. */
  type SessionId = nat

  /**
   * The server-to-client events: `chat message` with the content and the row
   * id (live or replayed), and `user connected` with the announcement text.
   */
  datatype Event = Chat(content: string, id: int) | UserConnected(text: string)

  /** The text of the presence announcement for a `self` event carrying `nickname`. */
  function JoinAnnouncement(nickname: string): (text: string)
    ensures |text| == |nickname| + |JoinSuffix|
    ensures text[..|nickname|] == nickname && text[|nickname|..] == JoinSuffix
  {
    nickname + JoinSuffix
  }

  const JoinSuffix: string := " has joined the chat!"

  /** Different nicknames are announced with different texts: the announcement names who joined. */
  lemma JoinAnnouncementNamesUser(a: string, b: string)
    requires JoinAnnouncement(a) == JoinAnnouncement(b)
    ensures a == b
  {
    var text := JoinAnnouncement(a);
    assert |a| == |b|;
    assert a == text[..|a|];
  }
}
