/** The message loop of `devprofiler/src/pubsub/listener.rs`: a bounded window of the hashes of
    recently seen message bodies suppresses redeliveries, and each new message is routed by its
    `msgtype` attribute. The subscription stream is a finite sequence of messages; hashing, JSON
    decoding of the install payload and the spawned handlers are parameters or recorded as
    actions. */
module Listener {
  import opened Results

  /** `queue_cap`: the number of message hashes remembered. */
  const QueueCap: nat := 100

  /** A delivered message: its body and its attribute map. */
  datatype Message = Message(data: string, attributes: map<string, string>)

  /** The fields of an install notification, when its body decodes. */
  datatype InstallCallback = InstallCallback(repositoryProvider: string, installationCode: string)

  /** What the loop does with a message it has not seen: spawn the install handler with the
      installation code, log a body that does not decode, spawn review processing on the body,
      or only log a missing or unknown message type. */
  datatype Action = HandleInstall(code: string) | BadInstallPayload | ProcessReview(data: string) | Unrouted

  /** The window after the front has been popped until at most `QueueCap` hashes remain: the
      newest `QueueCap` entries. */
  function Trim(window: seq<string>): (r: seq<string>)
    ensures |r| <= QueueCap
    ensures |window| <= QueueCap ==> r == window
    ensures |window| > QueueCap ==> |r| == QueueCap
    ensures r == window[|window| - |r|..]
  {
    if |window| > QueueCap then window[|window| - QueueCap..] else window
  }

  /** The dispatch on the `msgtype` attribute. */
  function Route(msg: Message, parseInstall: string -> Option<InstallCallback>): (r: Action)
    ensures (r.HandleInstall? || r.BadInstallPayload?)
        <==> "msgtype" in msg.attributes && msg.attributes["msgtype"] == "install_callback"
    ensures r.HandleInstall? <==>
        "msgtype" in msg.attributes && msg.attributes["msgtype"] == "install_callback"
        && parseInstall(msg.data).Some?
    ensures r.HandleInstall? ==> r.code == parseInstall(msg.data).value.installationCode
    ensures r.ProcessReview? <==> "msgtype" in msg.attributes && msg.attributes["msgtype"] == "webhook_callback"
    ensures r.ProcessReview? ==> r.data == msg.data
  {
    if "msgtype" !in msg.attributes then Unrouted
    else
      var msgtype := msg.attributes["msgtype"];
      if msgtype == "install_callback" then
        match parseInstall(msg.data)
        case Some(cb) => HandleInstall(cb.installationCode)
        case None => BadInstallPayload
      else if msgtype == "webhook_callback" then ProcessReview(msg.data)
      else Unrouted
  }

  /** One trip round the loop on the abstract state: a message whose hash is in the window is
      ignored; any other has its hash appended, the window trimmed, and is routed. */
  function Receive(window: seq<string>, msg: Message, digest: string -> string,
                   parseInstall: string -> Option<InstallCallback>): (seq<string>, seq<Action>)
  {
    var h := digest(msg.data);
    if h in window then (window, [])
    else (Trim(window + [h]), [Route(msg, parseInstall)])
  }

  /** The window and the actions after a stream of messages, starting from an empty window. */
  function Listen(msgs: seq<Message>, digest: string -> string,
                  parseInstall: string -> Option<InstallCallback>): (seq<string>, seq<Action>)
    decreases |msgs|
  {
    if msgs == [] then ([], [])
    else
      var before := Listen(msgs[..|msgs| - 1], digest, parseInstall);
      var after := Receive(before.0, msgs[|msgs| - 1], digest, parseInstall);
      (after.0, before.1 + after.1)
  }

  /** No hash occurs twice. */
  predicate Distinct(window: seq<string>)
  {
    forall i, j :: 0 <= i < j < |window| ==> window[i] != window[j]
  }

  /** `listen_messages` over a finite stream: returns the actions taken, the messages acked, in
      order, and the final window. */
  method ListenMessages(messages: seq<Message>, digest: string -> string,
                        parseInstall: string -> Option<InstallCallback>)
    returns (actions: seq<Action>, acked: seq<Message>, messageHashes: seq<string>)
    ensures (messageHashes, actions) == Listen(messages, digest, parseInstall)
    ensures acked == messages
  {
    messageHashes := [];
    actions := [];
    acked := [];
    for i := 0 to |messages|
      invariant (messageHashes, actions) == Listen(messages[..i], digest, parseInstall)
      invariant acked == messages[..i]
    {
      var message := messages[i];
      assert messages[..i + 1][..i] == messages[..i];
      var messageHash := digest(message.data);
      if messageHash !in messageHashes {
        messageHashes := messageHashes + [messageHash];
        ghost var pushed := messageHashes;
        if |messageHashes| > QueueCap {
          while |messageHashes| > QueueCap
            invariant Trim(messageHashes) == Trim(pushed)
            decreases |messageHashes|
          {
            TrimPopFront(messageHashes);
            messageHashes := messageHashes[1..];
          }
        }
        assert messageHashes == Trim(pushed);
        actions := actions + [Route(message, parseInstall)];
      } else {
        assert actions + [] == actions;
      }
      acked := acked + [message];
    }
    assert messages[..|messages|] == messages;
  }

  /** Popping the front of an over-full window leaves its newest `QueueCap` entries. */
  lemma TrimPopFront(window: seq<string>)
    requires |window| > QueueCap
    ensures Trim(window[1..]) == Trim(window)
  {
    assert window[1..][|window| - 1 - QueueCap..] == window[|window| - QueueCap..];
  }

  /** A redelivered body is not dispatched and leaves the window as it was. */
  lemma DuplicateIgnored(window: seq<string>, msg: Message, digest: string -> string,
                         parseInstall: string -> Option<InstallCallback>)
    requires digest(msg.data) in window
    ensures Receive(window, msg, digest, parseInstall) == (window, [])
  {
  }

  /** A new body is dispatched once; its hash goes to the back and is kept, and when the window
      was full the oldest entry, and only it, is evicted. */
  lemma NewMessageAdmitted(window: seq<string>, msg: Message, digest: string -> string,
                           parseInstall: string -> Option<InstallCallback>)
    requires |window| <= QueueCap && digest(msg.data) !in window
    ensures var (w, acts) := Receive(window, msg, digest, parseInstall);
            acts == [Route(msg, parseInstall)]
            && w != [] && w[|w| - 1] == digest(msg.data)
            && (|window| < QueueCap ==> w == window + [digest(msg.data)])
            && (|window| == QueueCap ==> w == window[1..] + [digest(msg.data)])
  {
    var h := digest(msg.data);
    var w := Trim(window + [h]);
    if |window| == QueueCap {
      assert (window + [h])[1..] == window[1..] + [h];
    }
    assert w[|w| - 1] == (window + [h])[|window|];
  }

  /** The window never holds more than `QueueCap` hashes, and never the same hash twice. */
  lemma {:induction false} ListenWindow(msgs: seq<Message>, digest: string -> string,
                                        parseInstall: string -> Option<InstallCallback>)
    ensures |Listen(msgs, digest, parseInstall).0| <= QueueCap
    ensures Distinct(Listen(msgs, digest, parseInstall).0)
    decreases |msgs|
  {
    if msgs != [] {
      var before := Listen(msgs[..|msgs| - 1], digest, parseInstall);
      ListenWindow(msgs[..|msgs| - 1], digest, parseInstall);
      var h := digest(msgs[|msgs| - 1].data);
      if h !in before.0 {
        DistinctTrim(before.0, h);
      }
    }
  }

  /** Appending an absent hash and trimming keeps the hashes distinct. */
  lemma DistinctTrim(window: seq<string>, h: string)
    requires Distinct(window) && h !in window
    ensures Distinct(Trim(window + [h]))
  {
    var s := window + [h];
    assert Distinct(s) by {
      forall i, j | 0 <= i < j < |s| ensures s[i] != s[j] {
        if j == |window| {
          assert s[i] == window[i];
        } else {
          assert s[i] == window[i] && s[j] == window[j];
        }
      }
    }
    var t := Trim(s);
    var d := |s| - |t|;
    forall i, j | 0 <= i < j < |t| ensures t[i] != t[j] {
      assert t[i] == s[d + i] && t[j] == s[d + j];
    }
  }

  /** At most one action per message. */
  lemma {:induction false} ListenActions(msgs: seq<Message>, digest: string -> string,
                                         parseInstall: string -> Option<InstallCallback>)
    ensures |Listen(msgs, digest, parseInstall).1| <= |msgs|
    decreases |msgs|
  {
    if msgs != [] {
      ListenActions(msgs[..|msgs| - 1], digest, parseInstall);
    }
  }

  /** The first message finds the window empty and is always dispatched. */
  lemma FirstMessageDispatched(msg: Message, digest: string -> string,
                               parseInstall: string -> Option<InstallCallback>)
    ensures Listen([msg], digest, parseInstall) == ([digest(msg.data)], [Route(msg, parseInstall)])
  {
    var msgs := [msg];
    assert msgs != [] && msgs[..0] == [] && msgs[|msgs| - 1] == msg;
    assert Listen(msgs[..0], digest, parseInstall) == ([], []);
    assert [] + [digest(msg.data)] == [digest(msg.data)];
    assert [] + [Route(msg, parseInstall)] == [Route(msg, parseInstall)];
  }
}
