/**
 * The access filter: `_chat_key` picks a conversation key, and
 * `chat_is_allowed` decides from the settings, the private flag and that key
 * whether the bot answers a message.
 */
module Access {
  import opened Wrappers
  import opened Text
  import opened Config

  /**
   * What `_chat_key` can see of a conversation: the chat entity's `username`
   * and `id` attributes when the entity has them, and the `user_id`,
   * `chat_id` or `channel_id` attribute of the message's peer.
   */
  datatype ChatDescriptor = ChatDescriptor(
    username: Option<string>,
    id: Option<int>,
    peerUserId: Option<int>,
    peerChatId: Option<int>,
    peerChannelId: Option<int>)

  /** `getattr(chat, "username", None)` is truthy: present and non-empty. */
  predicate HasUsername(c: ChatDescriptor) {
    c.username.Some? && c.username.value != []
  }

  /** `_chat_key`: the first of `@username` (lower-cased), the chat id, then the peer's ids. */
  function ChatKey(c: ChatDescriptor): (key: Option<string>) {
    if HasUsername(c) then Some(Lower("@" + c.username.value))
    else if c.id.Some? then Some(IntToDecimal(c.id.value))
    else if c.peerUserId.Some? then Some(IntToDecimal(c.peerUserId.value))
    else if c.peerChatId.Some? then Some(IntToDecimal(c.peerChatId.value))
    else if c.peerChannelId.Some? then Some(IntToDecimal(c.peerChannelId.value))
    else None
  }

  /** `chat_is_allowed`. */
  function ChatIsAllowed(cfg: Settings, isPrivate: bool, c: ChatDescriptor): (allowed: bool) {
    if cfg.onlyPrivate && !isPrivate then false
    else if cfg.allowed == {} then true
    else
      var key := ChatKey(c);
      key.Some? && Lower(key.value) in cfg.allowed
  }

  /** The numeric identifier consulted when there is no username: the chat id, else the peer's first id. */
  function FirstId(c: ChatDescriptor): (r: Option<int>)
    ensures r.None? <==> c.id.None? && c.peerUserId.None? && c.peerChatId.None? && c.peerChannelId.None?
  {
    if c.id.Some? then c.id
    else if c.peerUserId.Some? then c.peerUserId
    else if c.peerChatId.Some? then c.peerChatId
    else c.peerChannelId
  }

  /**
   * Key priority: a non-empty username gives `@` and the lower-cased name;
   * otherwise the first present identifier as a decimal numeral; with none
   * of them there is no key.
   */
  lemma ChatKeyPriority(c: ChatDescriptor)
    ensures HasUsername(c) ==> ChatKey(c) == Some("@" + Lower(c.username.value))
    ensures !HasUsername(c) && FirstId(c).Some? ==> ChatKey(c) == Some(IntToDecimal(FirstId(c).value))
    ensures ChatKey(c).None? <==> !HasUsername(c) && FirstId(c).None?
  {
    if HasUsername(c) {
      LowerConcat("@", c.username.value);
      assert Lower("@") == "@";
    }
  }

  /** Every key is lower-case already, so the second `lower()` in `chat_is_allowed` changes nothing. */
  lemma ChatKeyIsLowercase(c: ChatDescriptor)
    requires ChatKey(c).Some?
    ensures Lower(ChatKey(c).value) == ChatKey(c).value
  {
    if HasUsername(c) {
      LowerIsLowercase("@" + c.username.value);
    } else {
      IntToDecimalShape(FirstId(c).value);
    }
  }

  /**
   * A key tells its conversation apart: username keys and numeric keys never
   * collide, username keys agree only for names equal up to letter case, and
   * numeric keys agree only for equal identifiers.
   */
  lemma ChatKeyIdentifies(c: ChatDescriptor, d: ChatDescriptor)
    requires ChatKey(c).Some? && ChatKey(c) == ChatKey(d)
    ensures HasUsername(c) <==> HasUsername(d)
    ensures HasUsername(c) ==> Lower(c.username.value) == Lower(d.username.value)
    ensures !HasUsername(c) ==> FirstId(c) == FirstId(d)
  {
    ChatKeyPriority(c);
    ChatKeyPriority(d);
    if HasUsername(c) && !HasUsername(d) {
      IntToDecimalShape(FirstId(d).value);
    }
    if !HasUsername(c) && HasUsername(d) {
      IntToDecimalShape(FirstId(c).value);
    }
    if HasUsername(c) && HasUsername(d) {
      assert Lower(c.username.value) == ("@" + Lower(c.username.value))[1..];
      assert Lower(d.username.value) == ("@" + Lower(d.username.value))[1..];
    }
    if !HasUsername(c) && !HasUsername(d) {
      IntToDecimalInjective(FirstId(c).value, FirstId(d).value);
    }
  }

  /** Private-only denial: in private-only mode a group or channel message is refused whatever the allow-list holds. */
  lemma PrivateOnlyDenial(cfg: Settings, isPrivate: bool, c: ChatDescriptor)
    requires cfg.onlyPrivate && !isPrivate
    ensures forall allowed :: !ChatIsAllowed(Settings(cfg.onlyPrivate, allowed), isPrivate, c)
  {
  }

  /**
   * Once the private check passes, an empty allow-list admits everyone;
   * otherwise the conversation is admitted exactly when it has a key and the
   * key itself is on the list.
   */
  lemma AllowListDecision(cfg: Settings, isPrivate: bool, c: ChatDescriptor)
    requires !cfg.onlyPrivate || isPrivate
    ensures cfg.allowed == {} ==> ChatIsAllowed(cfg, isPrivate, c)
    ensures cfg.allowed != {} ==>
      (ChatIsAllowed(cfg, isPrivate, c) <==> ChatKey(c).Some? && ChatKey(c).value in cfg.allowed)
  {
    if ChatKey(c).Some? {
      ChatKeyIsLowercase(c);
    }
  }

  /** Usernames are compared without regard to letter case. */
  lemma UsernameCaseIgnored(cfg: Settings, isPrivate: bool, c: ChatDescriptor, d: ChatDescriptor)
    requires HasUsername(c) && HasUsername(d) && Lower(c.username.value) == Lower(d.username.value)
    ensures ChatIsAllowed(cfg, isPrivate, c) == ChatIsAllowed(cfg, isPrivate, d)
  {
    ChatKeyPriority(c);
    ChatKeyPriority(d);
  }

  /** A conversation with a username is never admitted by a numeric entry: only `@name` entries can match it. */
  lemma NumericEntriesIgnoredForUsernames(cfg: Settings, isPrivate: bool, c: ChatDescriptor)
    requires HasUsername(c) && cfg.allowed != {}
    requires forall e :: e in cfg.allowed ==> e == [] || e[0] != '@'
    ensures !ChatIsAllowed(cfg, isPrivate, c)
  {
    ChatKeyPriority(c);
    LowerIsLowercase(ChatKey(c).value);
    LowerOfLowercase(ChatKey(c).value);
  }

  /** An empty allow-list is the most permissive one: anything a list admits, no list admits too. */
  lemma EmptyAllowListMostPermissive(cfg: Settings, isPrivate: bool, c: ChatDescriptor)
    requires ChatIsAllowed(cfg, isPrivate, c)
    ensures ChatIsAllowed(Settings(cfg.onlyPrivate, {}), isPrivate, c)
  {
  }

  /** Adding entries to a non-empty allow-list never takes access away. */
  lemma AllowListMonotone(onlyPrivate: bool, a: set<string>, b: set<string>, isPrivate: bool, c: ChatDescriptor)
    requires a != {} && a <= b
    requires ChatIsAllowed(Settings(onlyPrivate, a), isPrivate, c)
    ensures ChatIsAllowed(Settings(onlyPrivate, b), isPrivate, c)
  {
  }

  /** End to end: an `ALLOWED_CHATS` item that reads `@name` in any case and spacing admits private messages from that user. */
  lemma ConfiguredUsernameAdmitted(env: map<string, string>, k: nat, c: ChatDescriptor)
    requires "ALLOWED_CHATS" in env
    requires k < |Split(env["ALLOWED_CHATS"], ',')|
    requires HasUsername(c)
    requires Lower(Strip(Split(env["ALLOWED_CHATS"], ',')[k])) == "@" + Lower(c.username.value)
    ensures ChatIsAllowed(Load(env), true, c)
  {
    var raw := env["ALLOWED_CHATS"];
    assert Strip(Split(raw, ',')[k]) != [];
    AllowedSetHasItem(raw, k);
    AllowListDecision(Load(env), true, c);
    ChatKeyPriority(c);
  }
}
