/** Which objects the requests of an I/O queue reach (kernel/src/scheduler/process/io.rs): a closed handle is
    dead until it is handed out again, and a live one is served until it is closed. */
module IoObjects {
  import opened IoProtocol

  /** The step puts an object into the table under this handle. */
  predicate Brings(s: State, step: Step, h: Handle)
  {
    || (step.Take? && Serves(s) && step.reply.Ready? && h in step.reply.created)
    || (step.PollTicket? && h in step.created)
    || (step.ChangeObjects? && h in step.objects)
  }

  /** The step takes it out: the kernel takes a Close of it, or another thread closes it. */
  predicate Removes(s: State, step: Step, h: Handle)
  {
    || (step.Take? && s.requests != [] && s.requests[0].verb.Close? && s.requests[0].handle == h)
    || (step.ChangeObjects? && h !in step.objects)
  }

  ghost predicate NeverBrought(s: State, steps: seq<Step>, h: Handle)
    requires IsRun(s, steps)
    decreases |steps|
  {
    steps == [] || (!Brings(s, steps[0], h) && NeverBrought(Exec(s, steps[0]), steps[1..], h))
  }

  ghost predicate NeverRemoved(s: State, steps: seq<Step>, h: Handle)
    requires IsRun(s, steps)
    decreases |steps|
  {
    steps == [] || (!Removes(s, steps[0], h) && NeverRemoved(Exec(s, steps[0]), steps[1..], h))
  }

  lemma ObjectStep(s: State, step: Step, h: Handle)
    requires Enabled(s, step) && !Panics(s, step)
    ensures h in Exec(s, step).objects <==> Brings(s, step, h) || (h in s.objects && !Removes(s, step, h))
  {
  }

  lemma {:induction false} DeadStaysDead(s: State, steps: seq<Step>, h: Handle)
    requires IsRun(s, steps) && NeverBrought(s, steps, h) && h !in s.objects
    ensures h !in After(s, steps).objects
    decreases |steps|
  {
    hide Enabled, Panics, Exec, Brings, Removes;
    if steps != [] {
      ObjectStep(s, steps[0], h);
      DeadStaysDead(Exec(s, steps[0]), steps[1..], h);
    }
  }

  lemma {:induction false} LiveStaysLive(s: State, steps: seq<Step>, h: Handle)
    requires IsRun(s, steps) && NeverRemoved(s, steps, h) && h in s.objects
    ensures h in After(s, steps).objects
    decreases |steps|
  {
    hide Enabled, Panics, Exec, Brings, Removes;
    if steps != [] {
      ObjectStep(s, steps[0], h);
      LiveStaysLive(Exec(s, steps[0]), steps[1..], h);
    }
  }

  /** After the kernel took a Close of h, and until h is handed out again: every request for h, and every
      request to share it, is answered that there is no such object, whatever the object would have said,
      and leaves the table alone. */
  lemma ClosedHandleIsRefused(s: State, closing: Reply, steps: seq<Step>, h: Handle, reply: Reply)
    requires Inv(s) && s.requests != [] && s.requests[0].verb.Close? && s.requests[0].handle == h && h in s.objects
    requires var t := Exec(s, Take(closing)); IsRun(t, steps) && ClosesAreLive(t, steps) && NeverBrought(t, steps, h)
    ensures var u := After(Exec(s, Take(closing)), steps);
            && h !in u.objects
            && (u.requests != [] && !u.requests[0].verb.Close? && (u.requests[0].handle == h || u.requests[0].verb == Share(h)) ==>
                  var v := Exec(u, Take(reply));
                  && v.responses == u.responses + [Response(u.requests[0].item, INVALID_OBJECT)]
                  && v.objects == u.objects && v.pending == u.pending && v.requests == u.requests[1..])
  {
    hide Inv, IsRun, After, ClosesAreLive, NeverBrought;
    var t := Exec(s, Take(closing));
    ObjectStep(s, Take(closing), h);
    StepKeepsInv(s, Take(closing));
    DeadStaysDead(t, steps, h);
    RunKeepsInv(t, steps);
    Refused(After(t, steps), h, reply);
  }

  lemma Refused(u: State, h: Handle, reply: Reply)
    requires Inv(u) && h !in u.objects
    ensures u.requests != [] && !u.requests[0].verb.Close? && (u.requests[0].handle == h || u.requests[0].verb == Share(h)) ==>
              var v := Exec(u, Take(reply));
              && v.responses == u.responses + [Response(u.requests[0].item, INVALID_OBJECT)]
              && v.objects == u.objects && v.pending == u.pending && v.requests == u.requests[1..]
  {
    hide Inv;
    if u.requests != [] && !u.requests[0].verb.Close? {
      HeadIsAnswerable(u.requests);
      NoResponseIsDropped(u, u.requests[0].item, INVALID_OBJECT);
    }
  }

  /** As long as h is not closed: a request for h gets what the object says.  A result is answered, with the
      object it made in the table; otherwise the request waits in the kernel. */
  lemma OpenHandleIsServed(s: State, steps: seq<Step>, h: Handle, reply: Reply)
    requires Inv(s) && h in s.objects && IsRun(s, steps) && ClosesAreLive(s, steps) && NeverRemoved(s, steps, h)
    ensures var u := After(s, steps);
            u.requests != [] && !u.requests[0].verb.Close? && u.requests[0].handle == h
            && (u.requests[0].verb.Share? ==> u.requests[0].verb.share in u.objects) ==>
              var v := Exec(u, Take(reply));
              if reply.Ready?
              then && v.responses == u.responses + [Response(u.requests[0].item, reply.value)]
                   && v.objects == u.objects + reply.created && v.pending == u.pending
              else v.pending == u.pending + [u.requests[0].item] && v.responses == u.responses && v.objects == u.objects
  {
    hide Inv, IsRun, After, ClosesAreLive, NeverRemoved;
    LiveStaysLive(s, steps, h);
    RunKeepsInv(s, steps);
    var u := After(s, steps);
    if u.requests != [] && !u.requests[0].verb.Close? {
      HeadIsAnswerable(u.requests);
      NoResponseIsDropped(u, u.requests[0].item, 0);
    }
  }
}
