/**
 * The per-user application settings service: a lazily filled map from pubkey to a
 * settings subject, the request for the one replaceable record that holds a user's
 * settings, and the unsigned draft that publishes new settings to that same record.
 *
 * The replaceable-record requester is not part of this model: what the service asks of
 * it is kept as a log of requests and a log of forwarded records, and the records its
 * request subjects emit arrive through `SettingsSubject.Emit`.
 */
module SettingsSync {
  import opened Wrappers
  import opened Settings

  /** The d-tag identifier of the settings record. */
  const SettingEventIdentifier: string := "nostrudel-settings"

  /** The record kind for application-specific data. */
  const AppSettingsKind: int := 30078

  /** A signed record as it arrives from a relay. */
  datatype NostrEvent = NostrEvent(
    id: string,
    pubkey: string,
    createdAt: int,
    kind: int,
    tags: seq<seq<string>>,
    content: string,
    sig: string)

  /** An unsigned record, to be signed and published by the caller. */
  datatype DraftEvent = DraftEvent(kind: int, tags: seq<seq<string>>, content: string, createdAt: int)

  /** The address of a replaceable record. */
  datatype Coordinate = Coordinate(kind: int, owner: string, identifier: string)

  /** Options for the requester; this service passes them on untouched. */
  datatype RequestOptions = RequestOptions(flags: map<string, bool>)

  /** One call into the requester's `requestEvent`. */
  datatype Request = Request(relays: seq<string>, coordinate: Coordinate, opts: Option<RequestOptions>)

  /** The coordinate of the settings record of `pubkey`. */
  function SettingsCoordinate(pubkey: string): (c: Coordinate)
    ensures c.kind == AppSettingsKind && c.owner == pubkey && c.identifier == SettingEventIdentifier
  {
    Coordinate(AppSettingsKind, pubkey, SettingEventIdentifier)
  }

  /** The identifier of a tag list: the value of its first `d` tag that has one. */
  function DTag(tags: seq<seq<string>>): (r: Option<string>)
    ensures r.Some? <==> exists i | 0 <= i < |tags| :: |tags[i]| >= 2 && tags[i][0] == "d"
    ensures r.Some? ==> exists i | 0 <= i < |tags| :: |tags[i]| >= 2 && tags[i][0] == "d" && tags[i][1] == r.value
  {
    if tags == [] then None
    else if |tags[0]| >= 2 && tags[0][0] == "d" then Some(tags[0][1])
    else
      var r := DTag(tags[1..]);
      assert forall i | 0 <= i < |tags| - 1 :: tags[1..][i] == tags[i + 1];
      assert (exists i | 0 <= i < |tags| :: |tags[i]| >= 2 && tags[i][0] == "d") ==>
        exists i | 0 <= i < |tags| - 1 :: |tags[1..][i]| >= 2 && tags[1..][i][0] == "d" by {
        if exists i | 0 <= i < |tags| :: |tags[i]| >= 2 && tags[i][0] == "d" {
          var i :| 0 <= i < |tags| && |tags[i]| >= 2 && tags[i][0] == "d";
          assert i > 0 && tags[1..][i - 1] == tags[i];
        }
      }
      r
  }

  /** `DTag` reads the first `d` tag that has a value. */
  lemma {:induction false} DTagFirst(tags: seq<seq<string>>, i: nat)
    requires i < |tags| && |tags[i]| >= 2 && tags[i][0] == "d"
    requires forall j | 0 <= j < i :: !(|tags[j]| >= 2 && tags[j][0] == "d")
    ensures DTag(tags) == Some(tags[i][1])
  {
    if i > 0 {
      assert tags[1..][i - 1] == tags[i];
      DTagFirst(tags[1..], i - 1);
    }
  }

  /** The coordinate a draft lands on once `author` signs it, if it has an identifier. */
  function DraftCoordinate(draft: DraftEvent, author: string): (c: Option<Coordinate>)
    ensures c.Some? <==> DTag(draft.tags).Some?
    ensures c.Some? ==> c.value.kind == draft.kind && c.value.owner == author
  {
    match DTag(draft.tags)
    case Some(id) => Some(Coordinate(draft.kind, author, id))
    case None => None
  }

  /**
   * A settings subject: it holds the current settings value and, once connected, the
   * request subject it follows and the handler that turns each emitted record into settings.
   */
  class SettingsSubject {
    var value: AppSettings
    var upstream: Option<Coordinate>
    var handler: Option<NostrEvent -> AppSettings>

    constructor (initial: AppSettings)
      ensures value == initial && upstream == None && handler == None
    {
      value := initial;
      upstream := None;
      handler := None;
    }

    /** Follow the request subject of `source`, replacing any previous connection; the value is kept. */
    method ConnectWithHandler(source: Coordinate, transform: NostrEvent -> AppSettings)
      modifies this
      ensures upstream == Some(source) && handler == Some(transform)
      ensures value == old(value)
    {
      upstream := Some(source);
      handler := Some(transform);
    }

    /** The followed request subject emitted `e`: the handler's result becomes the value. */
    method Emit(e: NostrEvent)
      requires handler.Some?
      modifies this
      ensures value == old(handler).value(e)
      ensures upstream == old(upstream) && handler == old(handler)
    {
      value := handler.value(e);
    }
  }

  class UserAppSettings {
    /** The settings every subject starts with. */
    const defaultSettings: AppSettings
    /** `parseAppSettings`: the record parser with the migration chain behind it. */
    const parse: NostrEvent -> AppSettings
    /** `JSON.stringify` on settings. */
    const serialize: AppSettings -> string

    var parsedSubjects: map<string, SettingsSubject>
    /** Every request issued to the replaceable-record requester, oldest first. */
    var requestLog: seq<Request>
    /** Every record forwarded to the requester's `handleEvent`, oldest first. */
    var forwarded: seq<NostrEvent>

    /** Each pubkey has a subject of its own. */
    ghost predicate Valid()
      reads this
    {
      forall p, q | p in parsedSubjects && q in parsedSubjects && p != q ::
        parsedSubjects[p] != parsedSubjects[q]
    }

    constructor (defaults: AppSettings, parseAppSettings: NostrEvent -> AppSettings, stringify: AppSettings -> string)
      ensures Valid()
      ensures defaultSettings == defaults && parse == parseAppSettings && serialize == stringify
      ensures parsedSubjects == map[] && requestLog == [] && forwarded == []
    {
      defaultSettings := defaults;
      parse := parseAppSettings;
      serialize := stringify;
      parsedSubjects := map[];
      requestLog := [];
      forwarded := [];
    }

    /**
     * The subject of `pubkey`, made on first use with the default settings; an existing
     * subject is returned as it is and no other entry changes.
     */
    method GetSubject(pubkey: string) returns (sub: SettingsSubject)
      requires Valid()
      modifies this
      ensures Valid()
      ensures pubkey in old(parsedSubjects) ==> sub == old(parsedSubjects)[pubkey] && parsedSubjects == old(parsedSubjects)
      ensures pubkey !in old(parsedSubjects) ==>
        && fresh(sub) && sub.value == defaultSettings && sub.upstream == None && sub.handler == None
        && parsedSubjects == old(parsedSubjects)[pubkey := sub]
      ensures requestLog == old(requestLog) && forwarded == old(forwarded)
    {
      if pubkey in parsedSubjects {
        sub := parsedSubjects[pubkey];
      } else {
        sub := new SettingsSubject(defaultSettings);
        parsedSubjects := parsedSubjects[pubkey := sub];
      }
    }

    /**
     * Request the settings record of `pubkey` from `relays` and wire the subject of
     * `pubkey` to it, so that every record it emits arrives parsed. The subject keeps
     * its current value until then.
     */
    method RequestAppSettings(pubkey: string, relays: seq<string>, opts: Option<RequestOptions>)
      returns (sub: SettingsSubject)
      requires Valid()
      modifies this, if pubkey in parsedSubjects then {parsedSubjects[pubkey]} else {}
      ensures Valid()
      ensures pubkey in old(parsedSubjects) ==>
        sub == old(parsedSubjects)[pubkey] && parsedSubjects == old(parsedSubjects) && sub.value == old(sub.value)
      ensures pubkey !in old(parsedSubjects) ==>
        fresh(sub) && parsedSubjects == old(parsedSubjects)[pubkey := sub] && sub.value == defaultSettings
      ensures sub.upstream == Some(SettingsCoordinate(pubkey)) && sub.handler == Some(parse)
      ensures requestLog == old(requestLog) + [Request(relays, SettingsCoordinate(pubkey), opts)]
      ensures forwarded == old(forwarded)
      ensures forall p | p in old(parsedSubjects) && p != pubkey :: unchanged(old(parsedSubjects)[p])
    {
      sub := GetSubject(pubkey);
      requestLog := requestLog + [Request(relays, SettingsCoordinate(pubkey), opts)];
      sub.ConnectWithHandler(SettingsCoordinate(pubkey), parse);
    }

    /** Hand a record to the requester; the subjects are not touched. */
    method ReceiveEvent(e: NostrEvent)
      modifies this
      ensures forwarded == old(forwarded) + [e]
      ensures parsedSubjects == old(parsedSubjects) && requestLog == old(requestLog)
    {
      forwarded := forwarded + [e];
    }

    /**
     * The draft that publishes `settings`: the settings kind, a single `d` tag with the
     * settings identifier, the serialized settings and the time `now` (in seconds).
     * It reads nothing but the serializer.
     */
    function BuildAppSettingsEvent(settings: AppSettings, now: int): (d: DraftEvent)
      ensures d.kind == AppSettingsKind && d.tags == [["d", SettingEventIdentifier]]
      ensures d.content == serialize(settings) && d.createdAt == now
      ensures forall author :: DraftCoordinate(d, author) == Some(SettingsCoordinate(author))
    {
      DraftEvent(AppSettingsKind, [["d", SettingEventIdentifier]], serialize(settings), now)
    }
  }

  /**
   * A fresh subject wired by `RequestAppSettings` shows the default settings until the
   * first record arrives, and then exactly the parse of the last record received.
   */
  method FirstEmission(svc: UserAppSettings, pubkey: string, relays: seq<string>, e1: NostrEvent, e2: NostrEvent)
    requires svc.Valid() && pubkey !in svc.parsedSubjects
    modifies svc
    ensures svc.Valid()
    ensures pubkey in svc.parsedSubjects && svc.parsedSubjects[pubkey].value == svc.parse(e2)
    ensures svc.requestLog == old(svc.requestLog) + [Request(relays, SettingsCoordinate(pubkey), None)]
  {
    var sub := svc.RequestAppSettings(pubkey, relays, None);
    assert sub.value == svc.defaultSettings;
    sub.Emit(e1);
    assert sub.value == svc.parse(e1);
    sub.Emit(e2);
    assert sub.value == svc.parse(e2);
    var again := svc.GetSubject(pubkey);
    assert again == sub;
  }
}
