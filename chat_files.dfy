/**
 * The file-URL rule of the chat controller (src/controllers/chat.controller.ts):
 * messages read back by `getChatMessages` and the last message of each chat
 * listed by `getUserChats` get their `fileUrl` moved under the directory that
 * belongs to their message type; and the multer `destination` picks the upload
 * directory of a new file from its MIME type.
 */
module ChatFiles {
  import opened Wrappers
  import opened WsTypes

  const VoiceDir: string := "/uploads/chat/voice/"
  const ImagesDir: string := "/uploads/chat/images/"
  const FilesDir: string := "/uploads/chat/files/"

  /** JavaScript `s.startsWith(prefix)`. */
  predicate StartsWith(s: string, prefix: string) {
    |prefix| <= |s| && s[..|prefix|] == prefix
  }

  /** JavaScript `s.includes(sub)`: `sub` occurs at some position of `s`. */
  predicate Contains(s: string, sub: string)
    decreases |s|
  {
    StartsWith(s, sub) || (s != [] && Contains(s[1..], sub))
  }

  /** Whatever follows it, a string contains its own prefix. */
  lemma ContainsPrefix(prefix: string, rest: string)
    ensures Contains(prefix + rest, prefix)
  {
    assert (prefix + rest)[..|prefix|] == prefix;
  }

  /** A string contains `sub` exactly when `sub` occurs at some position. */
  lemma {:induction false} ContainsAt(s: string, sub: string)
    ensures Contains(s, sub) <==> exists i :: 0 <= i <= |s| - |sub| && StartsWith(s[i..], sub)
    decreases |s|
  {
    if s != [] {
      ContainsAt(s[1..], sub);
      if Contains(s[1..], sub) {
        var i :| 0 <= i <= |s[1..]| - |sub| && StartsWith(s[1..][i..], sub);
        assert s[1..][i..] == s[i + 1..];
        assert StartsWith(s[i + 1..], sub);
      }
      forall i | 1 <= i <= |s| - |sub| && StartsWith(s[i..], sub)
        ensures Contains(s[1..], sub)
      {
        assert s[1..][i - 1..] == s[i..];
      }
    }
    if StartsWith(s, sub) {
      assert s[0..] == s;
    }
  }

  /** `s` without its trailing slashes. */
  function TrimTrailingSlashes(s: string): (r: string)
    ensures |r| <= |s| && r == s[..|r|]
    ensures r == [] || r[|r| - 1] != '/'
    ensures forall i :: |r| <= i < |s| ==> s[i] == '/'
  {
    if s != [] && s[|s| - 1] == '/' then TrimTrailingSlashes(s[..|s| - 1]) else s
  }

  /** The characters after the last slash of `s` (all of `s` when it has none). */
  function LastSegment(s: string): (r: string)
    ensures '/' !in r
    ensures |r| <= |s| && r == s[|s| - |r|..]
    ensures |r| == |s| || s[|s| - |r| - 1] == '/'
  {
    if s == [] || s[|s| - 1] == '/' then []
    else LastSegment(s[..|s| - 1]) + [s[|s| - 1]]
  }

  /**
   * Node's POSIX `path.basename`: the last path segment, trailing slashes
   * ignored; "" for a path made only of slashes.
   */
  function Basename(path: string): (name: string)
    ensures '/' !in name
    ensures var trimmed := TrimTrailingSlashes(path);
      && |name| <= |trimmed| && name == trimmed[|trimmed| - |name|..]
      && (|name| == |trimmed| || trimmed[|trimmed| - |name| - 1] == '/')
  {
    LastSegment(TrimTrailingSlashes(path))
  }

  /** After a slash, a name without slashes is the whole last segment. */
  lemma {:induction false} LastSegmentAfterSlash(dir: string, name: string)
    requires dir != [] && dir[|dir| - 1] == '/' && '/' !in name
    ensures LastSegment(dir + name) == name
    decreases |name|
  {
    if name == [] {
      assert dir + name == dir;
    } else {
      var init := name[..|name| - 1];
      assert (dir + name)[..|dir + name| - 1] == dir + init;
      assert '/' !in init by {
        forall c | c in init ensures c != '/' {
          assert c in name;
        }
      }
      LastSegmentAfterSlash(dir, init);
      assert init + [name[|name| - 1]] == name;
    }
  }

  /** Moving a file name under a directory keeps its base name. */
  lemma BasenameUnder(dir: string, name: string)
    requires dir != [] && dir[|dir| - 1] == '/' && '/' !in name && name != []
    ensures Basename(dir + name) == name
  {
    var path := dir + name;
    assert path[|path| - 1] == name[|name| - 1];
    assert name[|name| - 1] in name;
    assert TrimTrailingSlashes(path) == path;
    LastSegmentAfterSlash(dir, name);
  }

  /** The directory a message type's file belongs in; other types have none. */
  function DirFor(messageType: string): (dir: Option<string>)
    ensures dir.Some? <==> messageType in {"VOICE_NOTE", "IMAGE", "FILE"}
    ensures dir.Some? ==> dir.value in {VoiceDir, ImagesDir, FilesDir}
  {
    if messageType == "VOICE_NOTE" then Some(VoiceDir)
    else if messageType == "IMAGE" then Some(ImagesDir)
    else if messageType == "FILE" then Some(FilesDir)
    else None
  }

  /** The `correctedFileUrl` chain: voice notes, images and files are moved under their directory if it is absent. */
  function CorrectFileUrl(messageType: string, url: string): (r: string)
    ensures r == url || (DirFor(messageType).Some? && r == DirFor(messageType).value + Basename(url))
  {
    if messageType == "VOICE_NOTE" && !Contains(url, VoiceDir) then VoiceDir + Basename(url)
    else if messageType == "IMAGE" && !Contains(url, ImagesDir) then ImagesDir + Basename(url)
    else if messageType == "FILE" && !Contains(url, FilesDir) then FilesDir + Basename(url)
    else url
  }

  /**
   * A URL is kept when its type has no directory or already mentions it;
   * otherwise it becomes that directory followed by the URL's base name,
   * one path segment with no further slash.
   */
  lemma CorrectFileUrlMoves(messageType: string, url: string)
    ensures DirFor(messageType).None? ==> CorrectFileUrl(messageType, url) == url
    ensures DirFor(messageType).Some? && Contains(url, DirFor(messageType).value) ==>
      CorrectFileUrl(messageType, url) == url
    ensures DirFor(messageType).Some? && !Contains(url, DirFor(messageType).value) ==>
      var dir := DirFor(messageType).value;
      var fixed := CorrectFileUrl(messageType, url);
      StartsWith(fixed, dir) && fixed[|dir|..] == Basename(url) && '/' !in fixed[|dir|..]
  {
    var name := Basename(url);
    if messageType == "VOICE_NOTE" && !Contains(url, VoiceDir) {
      PrefixThenName(VoiceDir, name);
    } else if messageType == "IMAGE" && !Contains(url, ImagesDir) {
      PrefixThenName(ImagesDir, name);
    } else if messageType == "FILE" && !Contains(url, FilesDir) {
      PrefixThenName(FilesDir, name);
    }
  }

  /** A directory followed by a name starts with the directory, and the name follows it. */
  lemma PrefixThenName(dir: string, name: string)
    ensures StartsWith(dir + name, dir) && (dir + name)[|dir|..] == name
  {
    assert (dir + name)[..|dir|] == dir;
  }

  /** After the rule, a URL of a voice note, image or file always mentions that type's directory. */
  lemma CorrectFileUrlInDir(messageType: string, url: string)
    requires DirFor(messageType).Some?
    ensures Contains(CorrectFileUrl(messageType, url), DirFor(messageType).value)
  {
    var name := Basename(url);
    if messageType == "VOICE_NOTE" && !Contains(url, VoiceDir) {
      ContainsPrefix(VoiceDir, name);
    } else if messageType == "IMAGE" && !Contains(url, ImagesDir) {
      ContainsPrefix(ImagesDir, name);
    } else if messageType == "FILE" && !Contains(url, FilesDir) {
      ContainsPrefix(FilesDir, name);
    }
  }

  /** A moved file keeps its name, unless the URL had none (only slashes, or empty). */
  lemma CorrectFileUrlKeepsName(messageType: string, url: string)
    requires Basename(url) != ""
    ensures Basename(CorrectFileUrl(messageType, url)) == Basename(url)
  {
    var name := Basename(url);
    if messageType == "VOICE_NOTE" && !Contains(url, VoiceDir) {
      BasenameUnder(VoiceDir, name);
    } else if messageType == "IMAGE" && !Contains(url, ImagesDir) {
      BasenameUnder(ImagesDir, name);
    } else if messageType == "FILE" && !Contains(url, FilesDir) {
      BasenameUnder(FilesDir, name);
    }
  }

  /** Applying the rule twice is the same as applying it once. */
  lemma CorrectFileUrlIdempotent(messageType: string, url: string)
    ensures CorrectFileUrl(messageType, CorrectFileUrl(messageType, url)) == CorrectFileUrl(messageType, url)
  {
    if DirFor(messageType).Some? {
      CorrectFileUrlInDir(messageType, url);
    }
    CorrectFileUrlMoves(messageType, CorrectFileUrl(messageType, url));
  }

  /** A chat message row as the controllers return it; timestamps and the sender are left out. */
  datatype ChatMessage = ChatMessage(
    id: string,
    matchId: string,
    senderId: string,
    messageContent: string,
    messageType: string,
    fileUrl: Option<string>,
    isPredefined: bool,
    isRead: bool)

  /** The body of `messages.map` in `getChatMessages`. */
  function ProcessMessage(m: ChatMessage): (r: ChatMessage)
    ensures r == m.(fileUrl := r.fileUrl)
    ensures r.fileUrl.Some? <==> m.fileUrl.Some?
  {
    if Truthy(m.fileUrl) && m.messageType != "TEXT" then
      m.(fileUrl := Some(CorrectFileUrl(m.messageType, m.fileUrl.value)))
    else m
  }

  /**
   * A message whose `fileUrl` is absent or empty, or whose type is `TEXT`, is
   * returned as it is; any other non-empty URL gets the corrected URL (for
   * `TEXT` that would be the URL itself, so the `TEXT` test changes nothing).
   */
  lemma ProcessMessageRule(m: ChatMessage)
    ensures !Truthy(m.fileUrl) || m.messageType == "TEXT" ==> ProcessMessage(m) == m
    ensures Truthy(m.fileUrl) ==> ProcessMessage(m).fileUrl == Some(CorrectFileUrl(m.messageType, m.fileUrl.value))
  {
  }

  /** Processing a message twice changes nothing more. */
  lemma ProcessMessageIdempotent(m: ChatMessage)
    ensures ProcessMessage(ProcessMessage(m)) == ProcessMessage(m)
  {
    if Truthy(m.fileUrl) && m.messageType != "TEXT" {
      CorrectFileUrlIdempotent(m.messageType, m.fileUrl.value);
      CorrectedUrlNonEmpty(m.messageType, m.fileUrl.value);
    }
  }

  /** A corrected non-empty URL stays non-empty, so the second pass sees it again. */
  lemma CorrectedUrlNonEmpty(messageType: string, url: string)
    requires url != ""
    ensures CorrectFileUrl(messageType, url) != ""
  {
  }

  /** The `messages.map` inside `getChatMessages`: the rule applied to every message, order kept. */
  function ProcessMessages(messages: seq<ChatMessage>): (r: seq<ChatMessage>)
    ensures |r| == |messages|
    ensures forall i :: 0 <= i < |r| ==> r[i] == ProcessMessage(messages[i])
  {
    if messages == [] then []
    else [ProcessMessage(messages[0])] + ProcessMessages(messages[1..])
  }

  /** Processing a page of messages twice gives the same page as processing it once. */
  lemma ProcessMessagesIdempotent(messages: seq<ChatMessage>)
    ensures ProcessMessages(ProcessMessages(messages)) == ProcessMessages(messages)
  {
    var once := ProcessMessages(messages);
    forall i | 0 <= i < |once|
      ensures ProcessMessages(once)[i] == once[i]
    {
      ProcessMessageIdempotent(messages[i]);
    }
  }

  /** One row of `getUserChats`: a chat of the user with its latest message (`take: 1`). */
  datatype ChatSummary = ChatSummary(participantId: string, matchId: string, chats: seq<ChatMessage>)

  /** The body of `chats.map` in `getUserChats`. */
  function ProcessChat(chat: ChatSummary): (r: ChatSummary)
    ensures r.participantId == chat.participantId && r.matchId == chat.matchId
  {
    if |chat.chats| > 0 then
      var lastMessage := chat.chats[0];
      if Truthy(lastMessage.fileUrl) && lastMessage.messageType != "TEXT" then
        chat.(chats := [lastMessage.(fileUrl := Some(CorrectFileUrl(lastMessage.messageType, lastMessage.fileUrl.value)))])
      else chat
    else chat
  }

  /**
   * `getUserChats` follows the same rule as `getChatMessages`: a chat without
   * messages is untouched, and the single latest message is processed as a
   * message of the page would be.
   */
  lemma ProcessChatAgrees(chat: ChatSummary)
    ensures chat.chats == [] ==> ProcessChat(chat) == chat
    ensures |chat.chats| == 1 ==> ProcessChat(chat).chats == ProcessMessages(chat.chats)
  {
    if |chat.chats| == 1 {
      var m := chat.chats[0];
      if !(Truthy(m.fileUrl) && m.messageType != "TEXT") {
        assert ProcessMessage(m) == m;
        assert chat.chats == [m];
      }
    }
  }

  /** `getUserChats`: every listed chat processed, order kept. */
  function ProcessChats(chats: seq<ChatSummary>): (r: seq<ChatSummary>)
    ensures |r| == |chats|
    ensures forall i :: 0 <= i < |r| ==> r[i] == ProcessChat(chats[i])
  {
    if chats == [] then []
    else [ProcessChat(chats[0])] + ProcessChats(chats[1..])
  }

  const ImagesUpload: string := "uploads/chat/images"
  const VoiceUpload: string := "uploads/chat/voice"
  const FilesUpload: string := "uploads/chat/files"

  /** The multer `destination`: the upload directory of a file with this MIME type (absent when the client sent none). */
  function UploadDir(mimetype: Option<string>): (dir: string)
    ensures dir in {ImagesUpload, VoiceUpload, FilesUpload}
  {
    if mimetype.Some? && StartsWith(mimetype.value, "image/") then ImagesUpload
    else if mimetype.Some? && StartsWith(mimetype.value, "audio/") then VoiceUpload
    else FilesUpload
  }

  /** Images go to the images directory, audio to the voice directory, everything else to the files directory. */
  lemma UploadDirChoice(mimetype: Option<string>)
    ensures UploadDir(mimetype) == ImagesUpload <==> mimetype.Some? && StartsWith(mimetype.value, "image/")
    ensures UploadDir(mimetype) == VoiceUpload <==> mimetype.Some? && StartsWith(mimetype.value, "audio/")
    ensures UploadDir(mimetype) == FilesUpload <==>
      mimetype.None? || (!StartsWith(mimetype.value, "image/") && !StartsWith(mimetype.value, "audio/"))
  {
    if mimetype.Some? && StartsWith(mimetype.value, "image/") {
      assert mimetype.value[0] == 'i';
      assert !StartsWith(mimetype.value, "audio/");
    }
  }
}
