/** The service `IDOKEP`: deciding at start-up whether the uploader runs,
    completing the thread's settings, and queueing each new archive record
    for the thread. */
module Idokep {
  import opened Wrappers
  import opened IdokepThread

  /** The options `get_site_dict` hands over for the `[[IDOKEP]]` section,
      already parsed. `username` and `password` are always present, because
      `get_site_dict` yields nothing at all when either is missing. */
  datatype SiteDict = SiteDict(
    username: string,
    password: string,
    stationType: Option<string>,
    serverUrl: Option<string>,
    skipUpload: Option<bool>)

  /** `Inert`: no queue, no thread and no binding. `Active`: a started
      thread and the records queued for it, oldest first. */
  datatype Service<V> = Inert | Active(thread: Thread, queue: seq<Record<V>>)

  /** The `IDOKEPThread` constructor, with its own defaults for the options
      left out. */
  function NewThread(d: SiteDict): Thread
  {
    Thread(d.username, d.password, d.stationType.GetOr(DefaultStationType),
      d.serverUrl.GetOr(ServerUrl), d.skipUpload.GetOr(false))
  }

  /** The decision of `IDOKEP.__init__`: no thread when `get_site_dict`
      yields `None`; otherwise `station_type` defaults to the station
      hardware before the thread is constructed. */
  function Configure(site: Option<SiteDict>, hardware: string): (t: Option<Thread>)
    ensures site.None? <==> t.None?
    ensures t.Some? ==> t.value.username == site.value.username && t.value.password == site.value.password
    ensures t.Some? && site.value.stationType.Some? ==> t.value.stationType == site.value.stationType.value
    ensures t.Some? && site.value.stationType.None? ==> t.value.stationType == hardware
    ensures t.Some? ==> t.value.serverUrl == site.value.serverUrl.GetOr(ServerUrl)
    ensures t.Some? ==> t.value.skipUpload == site.value.skipUpload.GetOr(false)
  {
    match site
    case None => None
    case Some(d) =>
      var completed := if d.stationType.None? then d.(stationType := Some(hardware)) else d;
      Some(NewThread(completed))
  }

  /** `IDOKEP.__init__`: inert, or a started thread with an empty queue. */
  function Start<V>(site: Option<SiteDict>, hardware: string): (s: Service<V>)
    ensures s.Inert? <==> Configure(site, hardware).None?
    ensures s.Active? ==> s.queue == [] && Configure(site, hardware) == Some(s.thread)
  {
    match Configure(site, hardware)
    case None => Inert
    case Some(t) => Active(t, [])
  }

  /** `new_archive_record`, reached only through the binding an active
      service made: the record joins the back of the queue. */
  function NewArchiveRecord<V>(s: Service<V>, record: Record<V>): Service<V>
  {
    match s
    case Inert => Inert
    case Active(t, q) => Active(t, q + [record])
  }

  /** The host raising `NEW_ARCHIVE_RECORD` once per record, in order. */
  function Deliver<V>(s: Service<V>, records: seq<Record<V>>): Service<V>
    decreases |records|
  {
    if |records| == 0 then s
    else Deliver(NewArchiveRecord(s, records[0]), records[1..])
  }

  /** An inert service ignores every record; an active one queues them all,
      in arrival order, and keeps its thread. */
  lemma {:induction false} DeliverQueuesInOrder<V>(s: Service<V>, records: seq<Record<V>>)
    ensures s.Inert? ==> Deliver(s, records) == Inert
    ensures s.Active? ==> Deliver(s, records) == Active(s.thread, s.queue + records)
    decreases |records|
  {
    if |records| > 0 {
      DeliverQueuesInOrder(NewArchiveRecord(s, records[0]), records[1..]);
      if s.Active? {
        assert s.queue + [records[0]] + records[1..] == s.queue + records;
      }
    }
  }

  /** The requests the service hands to the host for records delivered
      after start-up, the thread processing its queue front to back. */
  function Uploads<V>(site: Option<SiteDict>, hardware: string, h: Host<V>, records: seq<Record<V>>): seq<Request>
  {
    match Deliver(Start(site, hardware), records)
    case Inert => []
    case Active(t, q) => Requests(ProcessAll(t, h, q))
  }

  /** A service that `get_site_dict` disabled never uploads anything. */
  lemma InertServiceUploadsNothing<V>(hardware: string, h: Host<V>, records: seq<Record<V>>)
    ensures Uploads(None, hardware, h, records) == []
  {
    DeliverQueuesInOrder(Start<V>(None, hardware), records);
  }

  /** With `skip_upload` set, no record leads to a request. */
  lemma SkipUploadServiceUploadsNothing<V>(d: SiteDict, hardware: string, h: Host<V>, records: seq<Record<V>>)
    requires d.skipUpload == Some(true)
    ensures Uploads(Some(d), hardware, h, records) == []
  {
    var s := Start<V>(Some(d), hardware);
    DeliverQueuesInOrder(s, records);
    assert s.queue + records == records;
    SkipUploadSendsNothing(s.thread, h, records);
  }

  /** An enabled service without `skip_upload` sends one request per
      record, for that record's URL, in arrival order. */
  lemma ActiveServiceUploadsEveryRecord<V>(d: SiteDict, hardware: string, h: Host<V>, records: seq<Record<V>>)
    requires d.skipUpload != Some(true)
    requires var t := Start<V>(Some(d), hardware).thread;
      forall i :: 0 <= i < |records| ==> FormatUrl(t, h, h.getRecord(records[i])).Success?
    ensures var t := Start<V>(Some(d), hardware).thread;
      var ups := Uploads(Some(d), hardware, h, records);
      |ups| == |records| &&
      forall i :: 0 <= i < |records| ==> ups[i].url == FormatUrl(t, h, h.getRecord(records[i])).value
  {
    var s := Start<V>(Some(d), hardware);
    DeliverQueuesInOrder(s, records);
    assert s.queue + records == records;
    OneRequestPerRecord(s.thread, h, records);
  }
}
