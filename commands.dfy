/**
 * The three command handlers of main.py (`whitelist_add`,
 * `whitelist_remove`, `whitelist_list`) with their collaborators turned
 * into inputs: the identity service's answer, the remote-console outcome,
 * and the whitelist file held as the state of a `WhitelistBot`.
 */
module Commands {
  import opened Wrappers
  import opened UuidFormat
  import opened AllowList
  import opened ListRendering

  /** The body of a successful profile lookup: the undashed id and the canonical name. */
  datatype Profile = Profile(id: string, name: string)

  /** What `get_minecraft_uuid` returns on success: the dashed uuid and the canonical name. */
  datatype Identity = Identity(uuid: string, name: string)

  const ReloadFailure := "Failed to reload whitelist on server. Check RCON settings."

  /**
   * `get_minecraft_uuid` once the HTTP answer is known: `response` is the
   * body of a 200 answer and None for any other status. The uuid is never
   * empty, so Python's `if uuid` is true exactly when the lookup succeeded.
   */
  function Resolve(response: Option<Profile>): (r: Option<Identity>)
    ensures r.Some? <==> response.Some?
    ensures r.Some? ==> r.value.uuid == Hyphenate(response.value.id)
    ensures r.Some? ==> r.value.name == response.value.name && |r.value.uuid| == |response.value.id| + 4
    ensures r.Some? && '-' !in response.value.id ==> StripHyphens(r.value.uuid) == response.value.id
    ensures r.Some? && IsUndashedId(response.value.id) ==>
      IsDashedUuid(r.value.uuid) && Dehyphenate(r.value.uuid) == response.value.id
  {
    match response
    case None => None
    case Some(p) =>
      assert '-' !in p.id ==> StripHyphens(Hyphenate(p.id)) == p.id by {
        if '-' !in p.id { StripHyphenateRoundTrip(p.id); }
      }
      assert IsUndashedId(p.id) ==> IsDashedUuid(Hyphenate(p.id)) && Dehyphenate(Hyphenate(p.id)) == p.id by {
        if IsUndashedId(p.id) { HyphenateIsDashedUuid(p.id); DehyphenateHyphenate(p.id); }
      }
      Some(Identity(Hyphenate(p.id), p.name))
  }

  /** `reload_whitelist`: the server's answer, or the fixed message when the connection fails. */
  function ReloadReply(rcon: Option<string>): string
  {
    match rcon
    case Some(text) => text
    case None => ReloadFailure
  }

  /** `load_whitelist`: a missing file reads as the empty list. */
  function LoadWhitelist(document: Option<seq<Entry>>): seq<Entry>
  {
    match document
    case Some(s) => s
    case None => []
  }

  function NotFoundReply(username: string): string
  {
    "Error: Could not find Minecraft player \"" + username + "\". Please check the username."
  }

  function AlreadyReply(name: string): string
  {
    "Player " + name + " is already whitelisted!"
  }

  function AddedReply(name: string, uuid: string, response: string): string
  {
    "Added " + name + " (UUID: " + uuid + ") to the whitelist!\nServer response: " + response
  }

  function NotInListReply(username: string): string
  {
    "Player " + username + " was not found in the whitelist!"
  }

  function RemovedReply(who: string, response: string): string
  {
    "Removed " + who + " from the whitelist!\nServer response: " + response
  }

  /** What `whitelist_remove` filters out: the resolved uuid, or else the typed name up to case. */
  function RemoveCriterion(username: string, lookup: Option<Profile>): Criterion
  {
    match lookup
    case Some(p) => ByUuid(Hyphenate(p.id))
    case None => ByName(username)
  }

  /** `correct_username or minecraft_username`: the canonical name unless it is missing or empty. */
  function RemovedName(username: string, lookup: Option<Profile>): string
  {
    if lookup.Some? && |lookup.value.name| > 0 then lookup.value.name else username
  }

  /** The bot's view of the world: the whitelist file and the reloads it has attempted. */
  class WhitelistBot {
    /** The contents of whitelist.json; None while the file does not exist. */
    var document: Option<seq<Entry>>
    /**
     * How many times a save has tried to send `whitelist reload`. An attempt
     * whose connection fails sends nothing but still counts.
     */
    var reloadAttempts: nat

    constructor (document: Option<seq<Entry>>)
      ensures this.document == document && reloadAttempts == 0
    {
      this.document := document;
      reloadAttempts := 0;
    }

    /** `save_whitelist`: overwrite the whole file, then try to make the server reload it. */
    method Save(entries: seq<Entry>, rcon: Option<string>) returns (response: string)
      modifies this
      ensures document == Some(entries) && reloadAttempts == old(reloadAttempts) + 1
      ensures LoadWhitelist(document) == entries
      ensures response == ReloadReply(rcon)
    {
      document := Some(entries);
      reloadAttempts := reloadAttempts + 1;
      response := ReloadReply(rcon);
    }

    /**
     * `whitelist <name>`. An unknown player is reported and nothing is
     * touched; a uuid already listed is reported and nothing is saved;
     * otherwise the entry is appended, the file saved and the server told.
     */
    method WhitelistAdd(username: string, lookup: Option<Profile>, rcon: Option<string>) returns (reply: string)
      modifies this
      ensures lookup.None? ==>
        reply == NotFoundReply(username) && document == old(document) && reloadAttempts == old(reloadAttempts)
      ensures lookup.Some? ==>
        var uuid, name := Hyphenate(lookup.value.id), lookup.value.name;
        var s := LoadWhitelist(old(document));
        if ContainsUuid(s, uuid) then
          reply == AlreadyReply(name) && document == old(document) && reloadAttempts == old(reloadAttempts)
        else
          && document == Some(AddEntry(s, Entry(uuid, name)))
          && reloadAttempts == old(reloadAttempts) + 1
          && reply == AddedReply(name, uuid, ReloadReply(rcon))
      ensures UniqueUuids(LoadWhitelist(old(document))) ==> UniqueUuids(LoadWhitelist(document))
    {
      var ident := Resolve(lookup);
      if !(ident.Some? && |ident.value.uuid| > 0) {
        reply := NotFoundReply(username);
        return;
      }
      var uuid, name := ident.value.uuid, ident.value.name;
      var whitelist := LoadWhitelist(document);
      if ContainsUuid(whitelist, uuid) {
        reply := AlreadyReply(name);
        return;
      }
      if UniqueUuids(whitelist) {
        AddKeepsUnique(whitelist, Entry(uuid, name));
      }
      whitelist := whitelist + [Entry(uuid, name)];
      var response := Save(whitelist, rcon);
      reply := AddedReply(name, uuid, response);
    }

    /**
     * `unwhitelist <name>`. Filters by the resolved uuid, or by the name up
     * to case when the lookup failed. When the length did not change nothing
     * is saved and the player is reported missing.
     */
    method WhitelistRemove(username: string, lookup: Option<Profile>, rcon: Option<string>) returns (reply: string)
      modifies this
      ensures
        var s := LoadWhitelist(old(document));
        var r := RemoveMatching(s, RemoveCriterion(username, lookup));
        if |r| == |s| then
          reply == NotInListReply(username) && document == old(document) && reloadAttempts == old(reloadAttempts)
        else
          && document == Some(r)
          && reloadAttempts == old(reloadAttempts) + 1
          && reply == RemovedReply(RemovedName(username, lookup), ReloadReply(rcon))
      ensures UniqueUuids(LoadWhitelist(old(document))) ==> UniqueUuids(LoadWhitelist(document))
    {
      var whitelist := LoadWhitelist(document);
      var ident := Resolve(lookup);
      var initialLength := |whitelist|;
      if ident.Some? && |ident.value.uuid| > 0 {
        whitelist := RemoveMatching(whitelist, ByUuid(ident.value.uuid));
      } else {
        whitelist := RemoveMatching(whitelist, ByName(username));
      }
      if |whitelist| == initialLength {
        reply := NotInListReply(username);
        return;
      }
      if UniqueUuids(LoadWhitelist(document)) {
        RemoveKeepsUnique(LoadWhitelist(document), RemoveCriterion(username, lookup));
      }
      var response := Save(whitelist, rcon);
      reply := RemovedReply(RemovedName(username, lookup), response);
    }

    /** `listwhitelist`: reads the file and writes nothing. */
    method WhitelistList() returns (reply: string)
      ensures reply == ListReply(LoadWhitelist(document))
    {
      reply := ListReply(LoadWhitelist(document));
    }
  }
}
