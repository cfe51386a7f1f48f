/** The toast notification: its visible state, the one pending dismissal, and
    `showToast`. Timers are modelled by hand: a scheduled dismissal is a handle with
    a deadline on a logical clock, the host fires it with `Fire` (or `Tick` once the
    clock has reached the deadline), and cancelling it removes it. */
module Toast {
  import Wrappers

  /** The `type` of a toast. */
  datatype ToastType = Success | Error | Info | Warning

  /** `ToastOptions`: each field may be absent. */
  datatype ToastOptions = ToastOptions(
    text: Wrappers.Option<string>,
    duration: Wrappers.Option<int>,
    kind: Wrappers.Option<ToastType>)

  /** The argument of `showToast`: a bare text or an options object. */
  datatype ToastRequest = Text(message: string) | Options(options: ToastOptions)

  /** What a toast shows once its options are read. */
  datatype Content = Content(text: string, duration: int, kind: ToastType)

  /** A scheduled dismissal: the handle `setTimeout` returned and the time at which
      the host will run it. */
  datatype Timer = Timer(handle: nat, deadline: int)

  const DefaultDuration := 5000

  /** A bare text is read as `{ text }`. */
  function AsOptions(request: ToastRequest): (o: ToastOptions)
    ensures request.Text? ==> o == ToastOptions(Wrappers.Some(request.message), Wrappers.None, Wrappers.None)
    ensures request.Options? ==> o == request.options
  {
    match request
    case Text(message) => ToastOptions(Wrappers.Some(message), Wrappers.None, Wrappers.None)
    case Options(options) => options
  }

  /** The content `showToast` stores: each absent option replaced by its default. */
  function ContentOf(request: ToastRequest): (c: Content)
    ensures var o := AsOptions(request);
            && (o.text.Some? ==> c.text == o.text.value)
            && (o.text.None? ==> c.text == "")
            && (o.duration.Some? ==> c.duration == o.duration.value)
            && (o.duration.None? ==> c.duration == DefaultDuration)
            && (o.kind.Some? ==> c.kind == o.kind.value)
            && (o.kind.None? ==> c.kind == Success)
  {
    var o := AsOptions(request);
    Content(
      if o.text.Some? then o.text.value else "",
      if o.duration.Some? then o.duration.value else DefaultDuration,
      if o.kind.Some? then o.kind.value else Success)
  }

  /** A bare text behaves exactly like the options object holding only that text. */
  lemma TextIsTextOption(message: string)
    ensures ContentOf(Text(message)) == ContentOf(Options(ToastOptions(Wrappers.Some(message), Wrappers.None, Wrappers.None)))
    ensures ContentOf(Text(message)) == Content(message, DefaultDuration, Success)
  {
  }

  // ---------------------------------------------------------------------------
  // The delay the host gives a timer

  const TwoTo31: int := 0x8000_0000
  const TwoTo32: int := 0x1_0000_0000

  /** The conversion of a whole number to a 32-bit signed integer, by wrapping. */
  function ToInt32(n: int): (r: int)
    ensures -TwoTo31 <= r < TwoTo31
    ensures (r - n) % TwoTo32 == 0
    ensures -TwoTo31 <= n < TwoTo31 ==> r == n
  {
    (n + TwoTo31) % TwoTo32 - TwoTo31
  }

  /** The delay `setTimeout` uses for a duration: the duration as a 32-bit signed
      integer, with negative values raised to zero. */
  function Delay(duration: int): (d: nat)
    ensures d < TwoTo31
    ensures 0 <= duration < TwoTo31 ==> d == duration
    ensures -TwoTo31 <= duration < 0 ==> d == 0
  {
    var n := ToInt32(duration);
    if n < 0 then 0 else n
  }

  /** The default duration is used as it is. */
  lemma DefaultDelay()
    ensures Delay(DefaultDuration) == 5000
  {
  }

  /** A duration just past the 32-bit range wraps around to a negative one, and the
      toast is dismissed at once. */
  lemma WrappedDelay()
    ensures Delay(TwoTo31) == 0
    ensures Delay(TwoTo32 + 1000) == 1000
  {
    assert ToInt32(TwoTo31) == -TwoTo31;
    assert ToInt32(TwoTo32 + 1000) == 1000;
  }

  // ---------------------------------------------------------------------------
  // The state

  /** `toastState` together with the module variable `toastTimeout`, here `pending`
      with the deadline of the timer it names, and the host's next timer handle. */
  class ToastState {
    var show: bool
    var text: string
    var duration: int
    var kind: ToastType
    var pending: Wrappers.Option<Timer>
    var nextHandle: nat

    /** Handles are positive, so a stored one is truthy, and every handle stored was
        issued; the toast is shown exactly while a dismissal is pending. */
    ghost predicate Valid()
      reads this
    {
      && 1 <= nextHandle
      && (pending.Some? ==> 1 <= pending.value.handle < nextHandle)
      && (show <==> pending.Some?)
    }

    /** What is shown, or was shown last. */
    function Shown(): Content
      reads this
    {
      Content(text, duration, kind)
    }

    /** The initial state: hidden, empty text, the default duration and type, and no
        pending dismissal. */
    constructor ()
      ensures Valid()
      ensures !show && Shown() == Content("", DefaultDuration, Success)
      ensures pending == Wrappers.None
    {
      show := false;
      text := "";
      duration := DefaultDuration;
      kind := Success;
      pending := Wrappers.None;
      nextHandle := 1;
    }

    /** `showToast(request)` at time `now`: the content is stored with its defaults,
        the toast is shown, the pending dismissal (if any) is cancelled, and a single
        new one is scheduled with the duration just stored. */
    method ShowToast(request: ToastRequest, now: int)
      requires Valid()
      modifies this
      ensures Valid()
      ensures show && Shown() == ContentOf(request)
      ensures pending == Wrappers.Some(Timer(old(nextHandle), now + Delay(ContentOf(request).duration)))
      ensures nextHandle == old(nextHandle) + 1
      ensures old(pending).Some? ==> old(pending).value.handle != pending.value.handle
    {
      var content := ContentOf(request);
      text := content.text;
      duration := content.duration;
      kind := content.kind;
      show := true;
      if pending.Some? {
        pending := Wrappers.None;
      }
      pending := Wrappers.Some(Timer(nextHandle, now + Delay(duration)));
      nextHandle := nextHandle + 1;
    }

    /** The host runs the callback of the timer `handle`. Only the pending one is
        still scheduled; a cancelled one is never run. Running it hides the toast and
        forgets the timer, and leaves the content alone. */
    method Fire(handle: nat)
      requires Valid()
      modifies this
      ensures Valid()
      ensures Shown() == old(Shown()) && nextHandle == old(nextHandle)
      ensures old(pending).Some? && old(pending).value.handle == handle ==> !show && pending == Wrappers.None
      ensures !(old(pending).Some? && old(pending).value.handle == handle)
              ==> show == old(show) && pending == old(pending)
    {
      if pending.Some? && pending.value.handle == handle {
        pending := Wrappers.None;
        show := false;
      }
    }

    /** The clock reaches `now`: the pending dismissal runs if its deadline has come. */
    method Tick(now: int)
      requires Valid()
      modifies this
      ensures Valid()
      ensures Shown() == old(Shown()) && nextHandle == old(nextHandle)
      ensures old(pending).Some? && old(pending).value.deadline <= now ==> !show && pending == Wrappers.None
      ensures !(old(pending).Some? && old(pending).value.deadline <= now)
              ==> show == old(show) && pending == old(pending)
    {
      if pending.Some? && pending.value.deadline <= now {
        Fire(pending.value.handle);
      }
    }
  }

  /** A toast shown over another before the first one's dismissal ran: the first
      dismissal no longer fires, the second text stays visible, and the second
      dismissal is the one pending, timed from the second call. */
  method ShowOverShow(t: ToastState, a: ToastRequest, b: ToastRequest, first: int, second: int)
    requires t.Valid()
    modifies t
    ensures t.Valid()
    ensures t.show && t.Shown() == ContentOf(b)
    ensures t.pending.Some? && t.pending.value.deadline == second + Delay(ContentOf(b).duration)
  {
    t.ShowToast(a, first);
    var dismissA := t.pending.value.handle;
    t.ShowToast(b, second);
    t.Fire(dismissA);
  }

  /** The dismissal of a shown toast, once the clock reaches its deadline, hides it
      and keeps its content. */
  method ShowThenExpire(t: ToastState, request: ToastRequest, now: int)
    requires t.Valid()
    modifies t
    ensures t.Valid()
    ensures !t.show && t.pending == Wrappers.None
    ensures t.Shown() == ContentOf(request)
  {
    t.ShowToast(request, now);
    t.Tick(now + Delay(ContentOf(request).duration));
  }
}
