/** What a stretch of a run may do to what has been assumed of it (scratch_sw/bare_metal/common/usbdev-utils.hh):
    an assumption fails only with a packet that was taken too early, or by a send of user code. */
module UsbRuns {
  import opened Words
  import opened UsbHardware
  import opened UsbRequests

  /** s is a later moment of the same run as r. A host with nothing left to attempt has done nothing. */
  predicate Later(r: Usb, s: Usb) {
    && Valid(r) && Valid(s) && r.delivered <= s.delivered && r.popped <= s.popped
    && r.early <= s.early && r.over <= s.over
    && (forall ep :: 0 <= ep < MAX_ENDPOINTS ==> r.asked[ep] <= s.asked[ep])
    && (r.todo == [] ==> s.todo == [] && s.delivered == r.delivered && s.got == r.got)
  }

  /** Packet k, the n-th or a later one, was for endpoint zero and taken while that endpoint held a reply. */
  predicate EarlyPacket(s: Usb, n: nat, k: nat) {
    n <= k < s.popped && k < |s.early| && k < |s.delivered| && s.early[k] && s.delivered[k].ep == 0
  }

  predicate EarlyRequest(s: Usb, n: nat, k: nat) {
    EarlyPacket(s, n, k) && IsRequest(s.delivered[k])
  }

  /** The reply it overtook, or the packet itself, goes unheeded. */
  predicate EarlyLoss(s: Usb, n: nat, k: nat) {
    EarlyPacket(s, n, k) && (IsRequest(s.delivered[k]) || LastSets(s.delivered[..k]))
  }

  /** The last request is a SET_ADDRESS or SET_CONFIGURATION. */
  predicate LastSets(ps: seq<Packet>) {
    var reqs := Requests(ps);
    reqs != [] && Awaiting(reqs[|reqs| - 1]) != StatusGetDesc
  }

  /** User code presented a packet on an endpoint which still held another. */
  predicate UserOver(s: Usb, sends: set<nat>) {
    exists ep | ep in sends :: ep in s.over
  }

  /** User code may have presented a packet on endpoint zero. */
  predicate UserZero(r: Usb, s: Usb, sends: set<nat>)
    requires Valid(r) && Valid(s)
  {
    0 in sends && |r.asked[0]| < |s.asked[0]|
  }

  ghost predicate CleanLost(s: Usb, n: nat, sends: set<nat>) {
    UserOver(s, sends) || exists k: nat :: EarlyRequest(s, n, k)
  }

  ghost predicate OrderLost(r: Usb, s: Usb, n: nat, sends: set<nat>)
    requires Valid(r) && Valid(s)
  {
    UserOver(s, sends) || UserZero(r, s, sends) || exists k: nat :: EarlyLoss(s, n, k)
  }

  ghost predicate PromptLost(r: Usb, s: Usb, n: nat, sends: set<nat>)
    requires Valid(r) && Valid(s)
  {
    UserOver(s, sends) || UserZero(r, s, sends) || exists k: nat :: EarlyPacket(s, n, k)
  }

  /** Endpoints on which user code does not send are presented nothing, but for the reply endpoint. */
  predicate LeavesAlone(r: Usb, s: Usb, sends: set<nat>)
    requires Valid(r) && Valid(s)
  {
    forall ep :: 0 < ep < MAX_ENDPOINTS && ep !in sends ==>
      s.asked[ep] == r.asked[ep] && (Outstanding(s, ep) ==> Outstanding(r, ep))
  }

  /** No assumption that had failed holds again. */
  predicate FewerAssumed(p: Pipe, q: Pipe) {
    (q.clean ==> p.clean) && (q.orderly ==> p.orderly) && (q.prompt ==> p.prompt)
  }

  /** From r to s, during which the packets from the n-th on were processed and user code sent on some of the
      endpoints in `sends`: each assumption that has failed has failed for its reason. */
  ghost predicate Course(r: Usb, n: nat, p: Pipe, s: Usb, q: Pipe, sends: set<nat>) {
    && Later(r, s) && LeavesAlone(r, s, sends) && FewerAssumed(p, q)
    && (p.clean && !q.clean ==> CleanLost(s, n, sends))
    && (p.orderly && !q.orderly ==> OrderLost(r, s, n, sends))
    && (p.prompt && !q.prompt ==> PromptLost(r, s, n, sends))
  }

  // ----- stretches follow one another -----

  lemma {:induction false} LaterTrans(r: Usb, s: Usb, t: Usb, sends: set<nat>)
    requires Later(r, s) && Later(s, t) && LeavesAlone(r, s, sends) && LeavesAlone(s, t, sends)
    ensures Later(r, t) && LeavesAlone(r, t, sends)
  {
    hide Valid, Outstanding;
  }

  lemma {:induction false} EarlyRemains(s: Usb, t: Usb, n: nat, k: nat)
    requires Later(s, t)
    ensures EarlyPacket(s, n, k) ==> EarlyPacket(t, n, k)
    ensures EarlyRequest(s, n, k) ==> EarlyRequest(t, n, k)
    ensures EarlyLoss(s, n, k) ==> EarlyLoss(t, n, k)
  {
    hide Valid, Requests, Awaiting, Answered;
    assert k <= |s.delivered| ==> t.delivered[..k] == s.delivered[..k];
  }

  lemma {:induction false} LossesRemain(r: Usb, s: Usb, t: Usb, n: nat, sends: set<nat>)
    requires Later(r, s) && Later(s, t)
    ensures CleanLost(s, n, sends) ==> CleanLost(t, n, sends)
    ensures OrderLost(r, s, n, sends) ==> OrderLost(r, t, n, sends)
    ensures PromptLost(r, s, n, sends) ==> PromptLost(r, t, n, sends)
  {
    forall k: nat
      ensures EarlyPacket(s, n, k) ==> EarlyPacket(t, n, k)
      ensures EarlyRequest(s, n, k) ==> EarlyRequest(t, n, k)
      ensures EarlyLoss(s, n, k) ==> EarlyLoss(t, n, k)
    {
      EarlyRemains(s, t, n, k);
    }
    hide EarlyPacket, EarlyRequest, EarlyLoss, Valid;
  }

  lemma {:induction false} LossesSince(r: Usb, s: Usb, t: Usb, n: nat, m: nat, sends: set<nat>)
    requires Later(r, s) && Later(s, t) && n <= m
    ensures CleanLost(t, m, sends) ==> CleanLost(t, n, sends)
    ensures OrderLost(s, t, m, sends) ==> OrderLost(r, t, n, sends)
    ensures PromptLost(s, t, m, sends) ==> PromptLost(r, t, n, sends)
  {
    assert forall k: nat :: EarlyPacket(t, m, k) ==> EarlyPacket(t, n, k);
    assert forall k: nat :: EarlyRequest(t, m, k) ==> EarlyRequest(t, n, k);
    assert forall k: nat :: EarlyLoss(t, m, k) ==> EarlyLoss(t, n, k);
    hide EarlyPacket, EarlyRequest, EarlyLoss, Valid;
  }

  lemma {:induction false} CourseTrans(r: Usb, n: nat, p: Pipe, s: Usb, m: nat, q: Pipe, t: Usb, w: Pipe,
      sends: set<nat>)
    requires Course(r, n, p, s, q, sends) && Course(s, m, q, t, w, sends) && n <= m
    ensures Course(r, n, p, t, w, sends)
  {
    LaterTrans(r, s, t, sends);
    LossesRemain(r, s, t, n, sends);
    LossesSince(r, s, t, n, m, sends);
    hide Later, LeavesAlone, CleanLost, OrderLost, PromptLost;
  }

  lemma {:induction false} CourseSelf(r: Usb, n: nat, p: Pipe, sends: set<nat>)
    requires Valid(r)
    ensures Course(r, n, p, r, p, sends)
  {
  }

  /** A packet that has just been taken too early. */
  lemma {:induction false} TooEarly(r: Usb, n: nat, p: Pipe, q: Pipe, sends: set<nat>)
    requires Valid(r) && FewerAssumed(p, q) && q.clean == p.clean
    requires p.orderly && !q.orderly ==> EarlyLoss(r, n, n)
    requires p.prompt && !q.prompt ==> EarlyPacket(r, n, n)
    ensures Course(r, n, p, r, q, sends)
  {
    CourseSelf(r, n, p, sends);
    hide Later, LeavesAlone, EarlyLoss, EarlyPacket, Valid, UserOver;
  }

  lemma {:induction false} CourseMeans(r: Usb, n: nat, p: Pipe, s: Usb, q: Pipe, sends: set<nat>)
    requires Course(r, n, p, s, q, sends)
    ensures Valid(r) && Valid(s) && r.popped <= s.popped && r.delivered <= s.delivered
    ensures FewerAssumed(p, q)
  {
  }

  /** Nothing was presented at all. */
  predicate Undisturbed(r: Usb, s: Usb) {
    Later(r, s) && LeavesAlone(r, s, {})
  }

  lemma {:induction false} UndisturbedTrans(r: Usb, s: Usb, t: Usb)
    requires Undisturbed(r, s) && Undisturbed(s, t)
    ensures Undisturbed(r, t)
  {
    LaterTrans(r, s, t, {});
  }

  lemma {:induction false} HostDisturbsNot(r: Usb, s: Usb, mine: set<nat>, taken: nat)
    requires Valid(r) && Evolved(r, s, mine, taken) && (mine == {} || s.asked == r.asked)
    requires forall ep | ep in mine :: ep < MAX_ENDPOINTS && Outstanding(r, ep)
    ensures Undisturbed(r, s)
  {
  }

  lemma {:induction false} AddressDisturbsNot(r: Usb, s: Usb, address: nat)
    requires Undisturbed(r, s)
    ensures Undisturbed(r, s.(address := address, addressReset := false))
  {
  }

  lemma {:induction false} UndisturbedCourse(r: Usb, n: nat, p: Pipe, s: Usb, q: Pipe, sends: set<nat>)
    requires Undisturbed(r, s) && q.clean == p.clean && q.orderly == p.orderly && q.prompt == p.prompt
    ensures Course(r, n, p, s, q, sends)
  {
  }

  lemma {:induction false} CourseThen(r: Usb, n: nat, p: Pipe, s: Usb, q: Pipe, t: Usb, sends: set<nat>)
    requires Course(r, n, p, s, q, sends) && Undisturbed(s, t)
    ensures Course(r, n, p, t, q, sends) && r.popped <= t.popped && r.delivered <= t.delivered
  {
    UndisturbedCourse(s, n, q, t, q, sends);
    CourseTrans(r, n, p, s, n, q, t, q, sends);
    CourseMeans(r, n, p, t, q, sends);
    hide Course;
  }

  /** With no sends of user code only packets taken too early are to blame. */
  lemma {:induction false} HostIsToBlame(r: Usb, n: nat, p: Pipe, s: Usb, q: Pipe)
    requires Course(r, n, p, s, q, {})
    ensures p.clean && !q.clean ==> exists k: nat :: EarlyRequest(s, n, k)
    ensures p.orderly && !q.orderly ==> exists k: nat :: EarlyLoss(s, n, k)
    ensures p.prompt && !q.prompt ==> exists k: nat :: EarlyPacket(s, n, k)
  {
    hide Later, LeavesAlone, EarlyPacket, EarlyRequest, EarlyLoss;
  }

  // ----- a whole run -----

  /** For every assumption that no longer holds there is a packet to show that was taken too early. */
  ghost predicate HostBlamed(s: Usb, q: Pipe) {
    && (!q.clean ==> exists k: nat :: EarlyRequest(s, 0, k))
    && (!q.orderly ==> exists k: nat :: EarlyLoss(s, 0, k))
    && (!q.prompt ==> exists k: nat :: EarlyPacket(s, 0, k))
  }

  lemma {:induction false} BlameRemains(r: Usb, s: Usb, p: Pipe)
    requires HostBlamed(r, p) && Later(r, s)
    ensures HostBlamed(s, p)
  {
    forall k: nat
      ensures EarlyPacket(r, 0, k) ==> EarlyPacket(s, 0, k)
      ensures EarlyRequest(r, 0, k) ==> EarlyRequest(s, 0, k)
      ensures EarlyLoss(r, 0, k) ==> EarlyLoss(s, 0, k)
    {
      EarlyRemains(r, s, 0, k);
    }
    hide EarlyPacket, EarlyRequest, EarlyLoss, Later;
  }

  lemma {:induction false} StillBlamed(r: Usb, p: Pipe, s: Usb, q: Pipe)
    requires HostBlamed(r, p) && Course(r, r.popped, p, s, q, {})
    ensures HostBlamed(s, q)
  {
    HostIsToBlame(r, r.popped, p, s, q);
    BlameRemains(r, s, p);
    assert forall k: nat :: EarlyPacket(s, r.popped, k) ==> EarlyPacket(s, 0, k);
    assert forall k: nat :: EarlyRequest(s, r.popped, k) ==> EarlyRequest(s, 0, k);
    assert forall k: nat :: EarlyLoss(s, r.popped, k) ==> EarlyLoss(s, 0, k);
    hide EarlyPacket, EarlyRequest, EarlyLoss, Later, LeavesAlone, CleanLost, OrderLost, PromptLost;
  }
}
