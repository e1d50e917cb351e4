/** The appointment store behind `getAppointments`, `createAppointment`,
    `updateAppointment` and `deleteAppointment`
    (Backend/controllers/appointmentController.js).

    The collection is a map from appointment id to record. Fresh ids come from
    a counter that only grows, so an id is never reused after a delete; the
    subset type `AppointmentStore` keeps every stored id below the counter.
    Records hold the raw patient and doctor ids: the `populate` expansion of
    the replies into names and emails is display only. */
module Appointments {
  import opened Http
  import opened Text
  import opened Sorting

  type AppointmentId = nat

  /** `date` is the stored date as a number (its time value); `time` is the
      free-text time of day, which the store orders as a string. */
  datatype Appointment = Appointment(
    patient: UserId, doctor: UserId, date: nat, time: string, reason: string,
    status: string, notes: string)

  datatype Store = Store(records: map<AppointmentId, Appointment>, nextId: nat)

  predicate IdsBelowCounter(s: Store) {
    forall id :: id in s.records ==> id < s.nextId
  }

  type AppointmentStore = s: Store | IdsBelowCounter(s) witness Store(map[], 0)

  /** One element of a reply: the record with its id. */
  datatype Entry = Entry(id: AppointmentId, appointment: Appointment)

  /** The request body of `createAppointment`. */
  datatype Booking = Booking(doctor: UserId, date: nat, time: string, reason: string)

  /** The request body of `updateAppointment`. */
  datatype Changes = Changes(status: Option<string>, notes: Option<string>)

  /** Defaults the appointment schema gives the fields `createAppointment`
      leaves out. */
  const DefaultStatus := "pending"
  const DefaultNotes := ""

  const NotFound := "Appointment not found"
  const NotAuthorized := "Not authorized"
  const Removed := "Appointment removed"

  /** The caller is the patient or the doctor of the appointment. */
  predicate Involves(a: Appointment, caller: UserId) {
    a.patient == caller || a.doctor == caller
  }

  /** `.sort({ date: 1, time: 1 })`: by date, then by time. */
  predicate Earlier(x: Entry, y: Entry) {
    || x.appointment.date < y.appointment.date
    || (x.appointment.date == y.appointment.date && LexLe(x.appointment.time, y.appointment.time))
  }

  lemma EarlierIsTotal()
    ensures Total(Earlier)
  {
    forall x: Entry, y: Entry ensures Earlier(x, y) || Earlier(y, x) {
      LexLeTotal(x.appointment.time, y.appointment.time);
    }
  }

  /** The store's sort order is transitive as well, so a listing sorted step by
      step is sorted pairwise. */
  lemma EarlierIsTransitive()
    ensures Transitive(Earlier)
  {
    forall x: Entry, y: Entry, z: Entry | Earlier(x, y) && Earlier(y, z) ensures Earlier(x, z) {
      if x.appointment.date == y.appointment.date == z.appointment.date {
        LexLeTransitive(x.appointment.time, y.appointment.time, z.appointment.time);
      }
    }
  }

  /** The records with id below `bound` that involve `caller`, in id order. */
  function Involving(records: map<AppointmentId, Appointment>, caller: UserId, bound: nat): (r: seq<Entry>)
    ensures forall e :: e in r <==>
              e.id < bound && e.id in records && records[e.id] == e.appointment && Involves(e.appointment, caller)
    ensures forall i, j :: 0 <= i < j < |r| ==> r[i].id < r[j].id
  {
    if bound == 0 then []
    else
      var rest := Involving(records, caller, bound - 1);
      var id := bound - 1;
      if id in records && Involves(records[id], caller) then rest + [Entry(id, records[id])] else rest
  }

  /** `getAppointments`: every appointment the caller is patient or doctor of,
      each once, ordered by date and then time. */
  function List(s: AppointmentStore, caller: UserId): (r: seq<Entry>)
    ensures forall e :: e in r <==>
              e.id in s.records && s.records[e.id] == e.appointment && Involves(e.appointment, caller)
    ensures forall i, j :: 0 <= i < j < |r| ==> r[i].id != r[j].id
    ensures Sorted(r, Earlier)
  {
    EarlierIsTotal();
    var found := Involving(s.records, caller, s.nextId);
    var r := SortBy(found, Earlier);
    SameElements(found, r);
    r
  }

  /** `createAppointment`: a new record under a fresh id, with the caller as
      its patient. */
  function Create(s: AppointmentStore, caller: UserId, b: Booking): (out: Handled<Entry, AppointmentStore>)
    ensures out.reply.Ok? && out.reply.status == 201
    ensures out.reply.body.id !in s.records
    ensures out.reply.body.appointment ==
              Appointment(caller, b.doctor, b.date, b.time, b.reason, DefaultStatus, DefaultNotes)
    ensures out.next.records.Keys == s.records.Keys + {out.reply.body.id}
    ensures out.next.records[out.reply.body.id] == out.reply.body.appointment
    ensures forall id :: id in s.records ==> out.next.records[id] == s.records[id]
  {
    var id := s.nextId;
    var a := Appointment(caller, b.doctor, b.date, b.time, b.reason, DefaultStatus, DefaultNotes);
    var next: AppointmentStore := Store(s.records[id := a], id + 1);
    Handled(Ok(201, Entry(id, a)), next)
  }

  /** `status || appointment.status` and `notes || appointment.notes`. */
  function Merge(a: Appointment, c: Changes): (r: Appointment)
    ensures r.status == (if Truthy(c.status) then c.status.value else a.status)
    ensures r.notes == (if Truthy(c.notes) then c.notes.value else a.notes)
    ensures r.patient == a.patient && r.doctor == a.doctor && r.date == a.date
    ensures r.time == a.time && r.reason == a.reason
  {
    a.(status := OrElse(c.status, a.status), notes := OrElse(c.notes, a.notes))
  }

  /** `updateAppointment`: not found, then not the patient or the doctor, then
      a merge of the supplied fields into that one record. */
  function Update(s: AppointmentStore, caller: UserId, id: AppointmentId, c: Changes): (out: Handled<Entry, AppointmentStore>)
    ensures id !in s.records ==> out == Handled(Fail(404, NotFound), s)
    ensures id in s.records && !Involves(s.records[id], caller) ==> out == Handled(Fail(401, NotAuthorized), s)
    ensures id in s.records && Involves(s.records[id], caller) ==>
              && out.reply == Ok(200, Entry(id, Merge(s.records[id], c)))
              && out.next.records.Keys == s.records.Keys
              && out.next.records[id] == Merge(s.records[id], c)
              && (forall k :: k in s.records && k != id ==> out.next.records[k] == s.records[k])
  {
    if id !in s.records then Handled(Fail(404, NotFound), s)
    else
      var a := s.records[id];
      if a.patient != caller && a.doctor != caller then Handled(Fail(401, NotAuthorized), s)
      else
        var a' := Merge(a, c);
        var next: AppointmentStore := Store(s.records[id := a'], s.nextId);
        Handled(Ok(200, Entry(id, a')), next)
  }

  /** `deleteAppointment`: not found, then not the patient (the doctor may not
      delete), then removal of that one record. */
  function Delete(s: AppointmentStore, caller: UserId, id: AppointmentId): (out: Handled<string, AppointmentStore>)
    ensures id !in s.records ==> out == Handled(Fail(404, NotFound), s)
    ensures id in s.records && s.records[id].patient != caller ==> out == Handled(Fail(401, NotAuthorized), s)
    ensures id in s.records && s.records[id].patient == caller ==>
              && out.reply == Ok(200, Removed)
              && out.next.records.Keys == s.records.Keys - {id}
              && (forall k :: k in out.next.records ==> out.next.records[k] == s.records[k])
  {
    if id !in s.records then Handled(Fail(404, NotFound), s)
    else if s.records[id].patient != caller then Handled(Fail(401, NotAuthorized), s)
    else
      var next: AppointmentStore := Store(s.records - {id}, s.nextId);
      Handled(Ok(200, Removed), next)
  }

  /** The listing is ordered pairwise: no appointment comes after a later one. */
  lemma ListOrderedByDateTime(s: AppointmentStore, caller: UserId)
    ensures var r := List(s, caller);
            forall i, j :: 0 <= i < j < |r| ==> Earlier(r[i], r[j])
  {
    EarlierIsTransitive();
    SortedPairwise(List(s, caller), Earlier);
  }

  /** A created appointment shows up in both its patient's and its doctor's
      listing. */
  lemma CreatedIsListed(s: AppointmentStore, caller: UserId, b: Booking)
    ensures var out := Create(s, caller, b);
            out.reply.body in List(out.next, caller) && out.reply.body in List(out.next, b.doctor)
  {
  }

  /** A successful delete removes the appointment from every caller's listing. */
  lemma DeletedIsNotListed(s: AppointmentStore, caller: UserId, id: AppointmentId, viewer: UserId)
    requires Delete(s, caller, id).reply.Ok?
    ensures forall e :: e in List(Delete(s, caller, id).next, viewer) ==> e.id != id
  {
  }

  /** The doctor of an appointment cannot delete it unless they are also its
      patient; the store is left as it was. */
  lemma DoctorCannotDelete(s: AppointmentStore, id: AppointmentId)
    requires id in s.records && s.records[id].doctor != s.records[id].patient
    ensures Delete(s, s.records[id].doctor, id) == Handled(Fail(401, NotAuthorized), s)
  {
  }

  /** An update whose fields are all absent or empty changes nothing. */
  lemma EmptyUpdateChangesNothing(s: AppointmentStore, caller: UserId, id: AppointmentId, c: Changes)
    requires !Truthy(c.status) && !Truthy(c.notes)
    ensures Update(s, caller, id, c).next == s
  {
    if id in s.records && Involves(s.records[id], caller) {
      assert Merge(s.records[id], c) == s.records[id];
      assert s.records[id := s.records[id]] == s.records;
    }
  }

  /** The ids a listing holds. */
  function Ids(r: seq<Entry>): set<AppointmentId> {
    set e | e in r :: e.id
  }

  /** Updates never change who may see an appointment: every caller's listing
      holds the same appointment ids before and after. */
  lemma UpdateKeepsVisibility(s: AppointmentStore, caller: UserId, id: AppointmentId, c: Changes, viewer: UserId)
    ensures Ids(List(Update(s, caller, id, c).next, viewer)) == Ids(List(s, viewer))
  {
    var s' := Update(s, caller, id, c).next;
    if s' != s {
      assert forall k :: k in s.records <==> k in s'.records;
      assert forall k :: k in s.records ==> Involves(s.records[k], viewer) == Involves(s'.records[k], viewer);
      ListedIds(s, viewer);
      ListedIds(s', viewer);
    }
  }

  /** A listing's ids are exactly the stored ids whose record involves the
      caller. */
  lemma ListedIds(s: AppointmentStore, caller: UserId)
    ensures forall k :: k in Ids(List(s, caller)) <==> k in s.records && Involves(s.records[k], caller)
  {
    var r := List(s, caller);
    forall k | k in s.records && Involves(s.records[k], caller) ensures k in Ids(r) {
      assert Entry(k, s.records[k]) in r;
    }
  }
}
