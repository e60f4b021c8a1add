/** The toast area shared by the page's components (`showNotification`).
    The document is reduced to the list of toast nodes it holds, in
    document order; each node carries an identity so that a late removal
    of an already replaced toast can be told apart from the current one. */
module Notifications {
  import opened Wrappers

  datatype Severity = Info | Error | Success

  datatype Toast = Toast(id: nat, message: string, severity: Severity)

  /** The toast nodes in the document and the identity the next one gets. */
  datatype Center = Center(shown: seq<Toast>, nextId: nat)

  /** At most one toast is in the document, and every identity in use was
      handed out before. */
  predicate Valid(c: Center) {
    && |c.shown| <= 1
    && forall k :: 0 <= k < |c.shown| ==> c.shown[k].id < c.nextId
  }

  /** The page starts with no toast. */
  function Empty(): (c: Center)
    ensures Valid(c) && Current(c).None?
  {
    Center([], 0)
  }

  /** The toast on screen, if any. */
  function Current(c: Center): Option<Toast> {
    if c.shown == [] then None else Some(c.shown[0])
  }

  /** `showNotification(message, severity)`: remove the first node found with
      the notification class, then append a new one. */
  function Notify(c: Center, message: string, severity: Severity): (r: Center)
    ensures Valid(c) ==> Valid(r)
    ensures Valid(c) ==> Current(r) == Some(Toast(c.nextId, message, severity))
    ensures |c.shown| > 1 ==> |r.shown| == |c.shown|
  {
    var rest := if c.shown == [] then [] else c.shown[1..];
    Center(rest + [Toast(c.nextId, message, severity)], c.nextId + 1)
  }

  /** The deferred `notification.remove()` of the toast with identity `id`,
      whether started by its close button or by the five-second timer.
      Removing a node that is no longer in the document does nothing. */
  function Close(c: Center, id: nat): (r: Center)
    ensures Valid(c) ==> Valid(r)
    ensures forall t :: t in r.shown <==> t in c.shown && t.id != id
    ensures (forall k :: 0 <= k < |c.shown| ==> c.shown[k].id != id) ==> r == c
    ensures r.nextId == c.nextId
  {
    Center(Without(c.shown, id), c.nextId)
  }

  /** The nodes of `ts`, in order, except those with identity `id`. */
  function Without(ts: seq<Toast>, id: nat): (r: seq<Toast>)
    ensures |r| <= |ts|
    ensures forall t :: t in r <==> t in ts && t.id != id
    ensures (forall k :: 0 <= k < |ts| ==> ts[k].id != id) ==> r == ts
  {
    if ts == [] then []
    else if ts[0].id == id then Without(ts[1..], id)
    else [ts[0]] + Without(ts[1..], id)
  }

  /** Last call wins: a second notification replaces the first, whatever the
      first said. */
  lemma LastNotifyWins(c: Center, m1: string, s1: Severity, m2: string, s2: Severity)
    requires Valid(c)
    ensures Current(Notify(Notify(c, m1, s1), m2, s2)) == Some(Toast(c.nextId + 1, m2, s2))
    ensures |Notify(Notify(c, m1, s1), m2, s2).shown| == 1
  {
  }

  /** The removal scheduled for a toast that has since been replaced leaves the
      replacement on screen. */
  lemma StaleCloseKeepsCurrent(c: Center, message: string, severity: Severity, stale: nat)
    requires Valid(c) && stale < c.nextId
    ensures var n := Notify(c, message, severity);
      Close(n, stale) == n
  {
    var n := Notify(c, message, severity);
    assert n.shown == [Toast(c.nextId, message, severity)];
  }

  /** Closing twice is closing once. */
  lemma CloseIdempotent(c: Center, id: nat)
    ensures Close(Close(c, id), id) == Close(c, id)
  {
  }
}
