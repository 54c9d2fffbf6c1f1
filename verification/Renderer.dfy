/** SystemRenderer: the draw calls collected between two flushes, and the ring of FRAME_BUFFER_COUNT
    frames that keeps what the GPU may still be using. The device is the environment: it hands out a new
    command list, fence and semaphore for every submission. */
module Renderer {
  import opened Wrappers

  const FRAME_BUFFER_COUNT: nat := 2
  const U32: nat := 0x1_0000_0000

  type Handle = nat
  type Transform = int
  type Material = nat
  type Window = nat

  datatype Mesh = Mesh(indexCount: nat, indexBuffer: Handle, vertexBuffers: seq<Handle>)
  datatype Camera = Camera(targetWindow: Window, view: Transform)

  /** Indices into the vectors of materials, meshes and instances. */
  datatype DrawCall = DrawCall(material: nat, mesh: nat, instance: nat)

  /** What is drawn: what one render_static_mesh asked for. */
  datatype Draw = Draw(material: Material, mesh: Mesh, instance: Transform)

  datatype FrameData = FrameData(fences: seq<Handle>, semaphores: seq<Handle>, commandLists: seq<Handle>)

  /** What the device is told, in order. Command list, fence and semaphore of one submission carry the same
      number. */
  datatype Event =
    | Wait(fence: Handle)
    | DropSemaphore(semaphore: Handle)
    | DropList(list: Handle)
    | WriteCamera(camera: Camera)
    | Submit(list: Handle, camera: Camera, draws: seq<Draw>)
    | Present(semaphore: Handle, window: Window)

  datatype Submission = Submission(number: nat, camera: Camera, draws: seq<Draw>)
  type Batch = seq<Submission>

  // ---------------------------------------------------------------------------
  // A run of flushes, as the device sees it

  function Numbers(b: Batch): (s: seq<Handle>)
    ensures |s| == |b| && forall i :: 0 <= i < |b| ==> s[i] == b[i].number
  {
    seq(|b|, i requires 0 <= i < |b| => b[i].number)
  }

  function FrameOf(b: Batch): FrameData {
    FrameData(Numbers(b), Numbers(b), Numbers(b))
  }

  function Waits(s: seq<Handle>): (e: seq<Event>)
    ensures |e| == |s| && forall i :: 0 <= i < |s| ==> e[i] == Wait(s[i])
  {
    seq(|s|, i requires 0 <= i < |s| => Wait(s[i]))
  }

  function DropSemaphores(s: seq<Handle>): (e: seq<Event>)
    ensures |e| == |s| && forall i :: 0 <= i < |s| ==> e[i] == DropSemaphore(s[i])
  {
    seq(|s|, i requires 0 <= i < |s| => DropSemaphore(s[i]))
  }

  function DropLists(s: seq<Handle>): (e: seq<Event>)
    ensures |e| == |s| && forall i :: 0 <= i < |s| ==> e[i] == DropList(s[i])
  {
    seq(|s|, i requires 0 <= i < |s| => DropList(s[i]))
  }

  /** Letting go of a batch: every fence first, then the semaphores, then the command lists. */
  function Cleanup(b: Batch): seq<Event> {
    Waits(Numbers(b)) + DropSemaphores(Numbers(b)) + DropLists(Numbers(b))
  }

  /** For every camera: its matrices go into the one camera buffer, then the list is submitted and
      presented. */
  function Submits(b: Batch): (e: seq<Event>)
    ensures |e| == 3 * |b|
    ensures forall i :: 0 <= i < |e| ==> e[i].WriteCamera? || e[i].Submit? || e[i].Present?
  {
    if b == [] then []
    else
      var s := b[|b| - 1];
      Submits(b[..|b| - 1])
      + [WriteCamera(s.camera), Submit(s.number, s.camera, s.draws), Present(s.number, s.camera.targetWindow)]
  }

  /** The batch that flush t lets go of. */
  function Released(run: seq<Batch>, t: nat): Batch
    requires t <= |run|
  {
    if t < FRAME_BUFFER_COUNT then [] else run[t - FRAME_BUFFER_COUNT]
  }

  function FlushLog(run: seq<Batch>, t: nat): seq<Event>
    requires t < |run|
  {
    Cleanup(Released(run, t)) + Submits(run[t])
  }

  /** What the first t flushes of a run tell the device. */
  function LogOf(run: seq<Batch>, t: nat): (log: seq<Event>)
    requires t <= |run|
  {
    if t == 0 then [] else LogOf(run, t - 1) + FlushLog(run, t - 1)
  }

  /** How many submissions the first t flushes make. */
  function Before(run: seq<Batch>, t: nat): nat
    requires t <= |run|
  {
    if t == 0 then 0 else Before(run, t - 1) + |run[t - 1]|
  }

  /** Submissions are numbered one after the other. */
  ghost predicate Numbered(run: seq<Batch>) {
    forall t, i :: 0 <= t < |run| && 0 <= i < |run[t]| ==> run[t][i].number == Before(run, t) + i
  }

  // ---------------------------------------------------------------------------
  // Every command list is let go of once, two flushes later, after its fence

  lemma {:induction false} BeforeMonotone(run: seq<Batch>, t: nat, u: nat)
    requires t <= u <= |run|
    ensures Before(run, t) <= Before(run, u)
  {
    if t < u { BeforeMonotone(run, t, u - 1); }
  }

  /** A number belongs to one flush only. */
  lemma NumberOnce(run: seq<Batch>, t: nat, i: nat, u: nat, j: nat)
    requires Numbered(run) && t < |run| && i < |run[t]| && u < |run| && j < |run[u]|
    requires run[t][i].number == run[u][j].number
    ensures t == u && i == j
  {
    if t < u { BeforeMonotone(run, t + 1, u); }
    if u < t { BeforeMonotone(run, u + 1, t); }
  }

  lemma {:induction false} LogSplit(run: seq<Batch>, t: nat, u: nat)
    requires t < u <= |run|
    ensures |LogOf(run, t)| + |FlushLog(run, t)| == |LogOf(run, t + 1)| <= |LogOf(run, u)|
    ensures forall k :: 0 <= k < |FlushLog(run, t)| ==> LogOf(run, u)[|LogOf(run, t)| + k] == FlushLog(run, t)[k]
  {
    hide FlushLog, LogOf;
    LogNext(run, u);
    if t + 1 < u { LogSplit(run, t, u - 1); }
  }

  lemma LogNext(run: seq<Batch>, u: nat)
    requires 0 < u <= |run|
    ensures LogOf(run, u) == LogOf(run, u - 1) + FlushLog(run, u - 1)
  {
  }

  /** A position of the log is in one of the flushes. */
  lemma {:induction false} LogAt(run: seq<Batch>, u: nat, r: nat) returns (t: nat, k: nat)
    requires u <= |run| && r < |LogOf(run, u)|
    ensures t < u && k < |FlushLog(run, t)| && r == |LogOf(run, t)| + k
    ensures LogOf(run, u)[r] == FlushLog(run, t)[k]
  {
    hide FlushLog;
    if r < |LogOf(run, u - 1)| {
      t, k := LogAt(run, u - 1, r);
    } else {
      t, k := u - 1, r - |LogOf(run, u - 1)|;
    }
  }

  /** The command lists a flush lets go of are those of its released batch. */
  lemma DropsOf(run: seq<Batch>, t: nat, k: nat)
    requires t < |run| && k < |FlushLog(run, t)| && FlushLog(run, t)[k].DropList?
    ensures var b := Released(run, t); 2 * |b| <= k < 3 * |b| && FlushLog(run, t)[k].list == b[k - 2 * |b|].number
  {
    var b, e := Released(run, t), Submits(run[t]);
    assert FlushLog(run, t) == Cleanup(b) + e && |Cleanup(b)| == 3 * |b|;
    InFirst(Cleanup(b), e, k);
  }

  lemma InFirst(a: seq<Event>, b: seq<Event>, k: nat)
    requires k < |a + b| && ((a + b)[k].DropList? || (a + b)[k].DropSemaphore?)
    requires forall i :: 0 <= i < |b| ==> !b[i].DropList? && !b[i].DropSemaphore?
    ensures k < |a| && (a + b)[k] == a[k]
  {
  }

  /** The command list of submission i of flush t is destroyed at flush t + 2, at one place only, and
      before that, in the same flush, its fence is waited on. */
  lemma DestroyedOnce(run: seq<Batch>, t: nat, i: nat) returns (p: nat, q: nat)
    requires Numbered(run) && t + 2 < |run| && i < |run[t]|
    ensures var log := LogOf(run, |run|);
      && |LogOf(run, t + 2)| <= p < q < |LogOf(run, t + 3)| <= |log|
      && log[p] == Wait(run[t][i].number) && log[q] == DropList(run[t][i].number)
      && forall r :: 0 <= r < |log| && log[r] == DropList(run[t][i].number) ==> r == q
  {
    hide LogOf, FlushLog, Cleanup;
    var log, u, n := LogOf(run, |run|), t + FRAME_BUFFER_COUNT, |run[t]|;
    LogSplit(run, u, |run|);
    p, q := |LogOf(run, u)| + i, |LogOf(run, u)| + 2 * n + i;
    InCleanup(run, u, i);
    forall r | 0 <= r < |log| && log[r] == DropList(run[t][i].number)
      ensures r == q
    {
      var v, k := LogAt(run, |run|, r);
      DropsOf(run, v, k);
      NumberOnce(run, t, i, v - FRAME_BUFFER_COUNT, k - 2 * |Released(run, v)|);
    }
  }

  /** So is its semaphore. */
  lemma SemaphoreDroppedOnce(run: seq<Batch>, t: nat, i: nat) returns (p: nat, q: nat)
    requires Numbered(run) && t + 2 < |run| && i < |run[t]|
    ensures var log := LogOf(run, |run|);
      && |LogOf(run, t + 2)| <= p < q < |LogOf(run, t + 3)| <= |log|
      && log[p] == Wait(run[t][i].number) && log[q] == DropSemaphore(run[t][i].number)
      && forall r :: 0 <= r < |log| && log[r] == DropSemaphore(run[t][i].number) ==> r == q
  {
    hide LogOf, FlushLog, Cleanup;
    var log, u, n := LogOf(run, |run|), t + FRAME_BUFFER_COUNT, |run[t]|;
    LogSplit(run, u, |run|);
    p, q := |LogOf(run, u)| + i, |LogOf(run, u)| + n + i;
    InCleanup(run, u, i);
    forall r | 0 <= r < |log| && log[r] == DropSemaphore(run[t][i].number)
      ensures r == q
    {
      var v, k := LogAt(run, |run|, r);
      SemaphoresOf(run, v, k);
      NumberOnce(run, t, i, v - FRAME_BUFFER_COUNT, k - |Released(run, v)|);
    }
  }

  lemma SemaphoresOf(run: seq<Batch>, t: nat, k: nat)
    requires t < |run| && k < |FlushLog(run, t)| && FlushLog(run, t)[k].DropSemaphore?
    ensures var b := Released(run, t); |b| <= k < 2 * |b| && FlushLog(run, t)[k].semaphore == b[k - |b|].number
  {
    hide Submits;
    var b, e := Released(run, t), Submits(run[t]);
    assert FlushLog(run, t) == Cleanup(b) + e && |Cleanup(b)| == 3 * |b|;
    InFirst(Cleanup(b), e, k);
  }

  lemma InCleanup(run: seq<Batch>, u: nat, i: nat)
    requires FRAME_BUFFER_COUNT <= u < |run| && i < |run[u - FRAME_BUFFER_COUNT]|
    ensures var b := run[u - FRAME_BUFFER_COUNT];
      && 3 * |b| <= |FlushLog(run, u)|
      && FlushLog(run, u)[i] == Wait(b[i].number) && FlushLog(run, u)[2 * |b| + i] == DropList(b[i].number)
      && FlushLog(run, u)[|b| + i] == DropSemaphore(b[i].number)
  {
    var b := run[u - FRAME_BUFFER_COUNT];
    var w, s, l := Waits(Numbers(b)), DropSemaphores(Numbers(b)), DropLists(Numbers(b));
    assert Cleanup(b) == w + s + l;
    assert Cleanup(b)[i] == w[i];
    assert Cleanup(b)[|b| + i] == s[i];
    assert Cleanup(b)[2 * |b| + i] == l[i];
  }

  /** The lists of the last two flushes are still there: at most two flushes are outstanding. */
  lemma NotDestroyedYet(run: seq<Batch>, t: nat, i: nat)
    requires Numbered(run) && t < |run| && i < |run[t]| && t + FRAME_BUFFER_COUNT >= |run|
    ensures DropList(run[t][i].number) !in LogOf(run, |run|)
  {
    hide LogOf, FlushLog;
    var log := LogOf(run, |run|);
    if r :| 0 <= r < |log| && log[r] == DropList(run[t][i].number) {
      var v, k := LogAt(run, |run|, r);
      DropsOf(run, v, k);
      NumberOnce(run, t, i, v - FRAME_BUFFER_COUNT, k - 2 * |Released(run, v)|);
    }
  }

  lemma {:induction false} SubmitsAt(b: Batch, i: nat)
    requires i < |b|
    ensures Submits(b)[3 * i] == WriteCamera(b[i].camera)
    ensures Submits(b)[3 * i + 1] == Submit(b[i].number, b[i].camera, b[i].draws)
    ensures Submits(b)[3 * i + 2] == Present(b[i].number, b[i].camera.targetWindow)
    decreases |b|
  {
    var n := |b| - 1;
    if i < n {
      SubmitsAt(b[..n], i);
      assert b[..n][i] == b[i];
    }
  }

  /** The camera writes of a flush, one for each submission. */
  lemma CameraWrites(run: seq<Batch>, t: nat, k: nat)
    requires t < |run| && k < |FlushLog(run, t)|
    ensures |FlushLog(run, t)| == 3 * |Released(run, t)| + 3 * |run[t]|
    ensures FlushLog(run, t)[k].WriteCamera? <==>
      k >= 3 * |Released(run, t)| && (k - 3 * |Released(run, t)|) % 3 == 0
  {
    hide Submits;
    var c, e := Cleanup(Released(run, t)), Submits(run[t]);
    assert FlushLog(run, t) == c + e;
    if k < |c| {
      CleanupQuiet(Released(run, t), k);
    } else {
      var j := k - |c|;
      SubmitsAt(run[t], j / 3);
      assert FlushLog(run, t)[k] == e[j];
      assert j == 3 * (j / 3) || j == 3 * (j / 3) + 1 || j == 3 * (j / 3) + 2;
    }
  }

  lemma CleanupQuiet(b: Batch, k: nat)
    requires k < |Cleanup(b)|
    ensures !Cleanup(b)[k].WriteCamera? && !Cleanup(b)[k].Submit?
  {
  }

  lemma {:induction false} LogMonotone(run: seq<Batch>, t: nat, u: nat)
    requires t <= u <= |run|
    ensures |LogOf(run, t)| <= |LogOf(run, u)|
  {
    hide FlushLog;
    if t < u { LogMonotone(run, t, u - 1); }
  }

  /** Where submission i of flush t is handed over. */
  ghost function SubmitAt(run: seq<Batch>, t: nat, i: nat): nat
    requires t < |run| && i < |run[t]|
  {
    |LogOf(run, t)| + 3 * |Released(run, t)| + 3 * i + 1
  }

  /** Where its fence is waited on. */
  ghost function WaitAt(run: seq<Batch>, t: nat, i: nat): nat
    requires t + FRAME_BUFFER_COUNT < |run|
  {
    |LogOf(run, t + FRAME_BUFFER_COUNT)| + i
  }

  /** The camera buffer is written between the two. */
  ghost predicate CameraOverwritten(run: seq<Batch>, t: nat, i: nat)
    requires t + FRAME_BUFFER_COUNT < |run| && i < |run[t]|
  {
    exists r :: SubmitAt(run, t, i) < r < WaitAt(run, t, i) && r < |LogOf(run, |run|)| && LogOf(run, |run|)[r].WriteCamera?
  }

  lemma SubmittedAndWaited(run: seq<Batch>, t: nat, i: nat)
    requires t + FRAME_BUFFER_COUNT < |run| && i < |run[t]|
    ensures var log, p, q := LogOf(run, |run|), SubmitAt(run, t, i), WaitAt(run, t, i);
      && 0 < p && p + 1 < q < |log| && log[p] == Submit(run[t][i].number, run[t][i].camera, run[t][i].draws)
      && log[p - 1] == WriteCamera(run[t][i].camera) && log[p + 1] == Present(run[t][i].number, run[t][i].camera.targetWindow)
      && log[q] == Wait(run[t][i].number)
  {
    hide LogOf, FlushLog, Cleanup, Submits;
    var u := t + FRAME_BUFFER_COUNT;
    LogSplit(run, t, |run|);
    LogSplit(run, u, |run|);
    LogMonotone(run, t + 1, u);
    InCleanup(run, u, i);
    InSubmits(run, t, i);
  }

  lemma InSubmits(run: seq<Batch>, t: nat, i: nat)
    requires t < |run| && i < |run[t]|
    ensures var k := 3 * |Released(run, t)| + 3 * i;
      && k + 3 <= |FlushLog(run, t)| && FlushLog(run, t)[k] == WriteCamera(run[t][i].camera)
      && FlushLog(run, t)[k + 1] == Submit(run[t][i].number, run[t][i].camera, run[t][i].draws)
      && FlushLog(run, t)[k + 2] == Present(run[t][i].number, run[t][i].camera.targetWindow)
  {
    hide Submits;
    var c, e := Cleanup(Released(run, t)), Submits(run[t]);
    SubmitsAt(run[t], i);
    assert |c| == 3 * |Released(run, t)|;
    assert FlushLog(run, t) == c + e;
    assert (c + e)[|c| + 3 * i] == e[3 * i] && (c + e)[|c| + (3 * i + 1)] == e[3 * i + 1];
    assert (c + e)[|c| + (3 * i + 2)] == e[3 * i + 2];
  }

  /** All submissions share one camera buffer, and no frame of the ring protects it: the buffer still holds
      the camera of a submission when that is waited on exactly if there was no later camera in its flush
      and none in the next. */
  lemma CameraOverwrittenIff(run: seq<Batch>, t: nat, i: nat)
    requires t + FRAME_BUFFER_COUNT < |run| && i < |run[t]|
    ensures CameraOverwritten(run, t, i) <==> i + 1 < |run[t]| || run[t + 1] != []
  {
    hide LogOf, FlushLog, Cleanup, Submits;
    var log, u := LogOf(run, |run|), t + FRAME_BUFFER_COUNT;
    LogSplit(run, t, |run|);
    LogSplit(run, t + 1, |run|);
    LogSplit(run, u, |run|);
    LogMonotone(run, t + 1, u);
    LogMonotone(run, t + 2, u);
    SubmittedAndWaited(run, t, i);
    InSubmits(run, t, i);
    if i + 1 < |run[t]| {
      InSubmits(run, t, i + 1);
      var r := |LogOf(run, t)| + (3 * |Released(run, t)| + 3 * (i + 1));
      assert log[r].WriteCamera?;
      assert SubmitAt(run, t, i) < r < WaitAt(run, t, i);
    } else if run[t + 1] != [] {
      InSubmits(run, t + 1, 0);
      var r := |LogOf(run, t + 1)| + (3 * |Released(run, t + 1)| + 3 * 0);
      assert log[r].WriteCamera?;
      assert SubmitAt(run, t, i) < r < WaitAt(run, t, i);
    } else if CameraOverwritten(run, t, i) {
      var r :| SubmitAt(run, t, i) < r < WaitAt(run, t, i) && r < |log| && log[r].WriteCamera?;
      WriteBetween(run, t, i, r);
    }
  }

  lemma WriteBetween(run: seq<Batch>, t: nat, i: nat, r: nat)
    requires t + FRAME_BUFFER_COUNT < |run| && i < |run[t]| && r < |LogOf(run, |run|)|
    requires SubmitAt(run, t, i) < r < WaitAt(run, t, i) && LogOf(run, |run|)[r].WriteCamera?
    ensures i + 1 < |run[t]| || run[t + 1] != []
  {
    hide LogOf, FlushLog, Cleanup, Submits;
    var v, k := LogAt(run, |run|, r);
    CameraWrites(run, v, k);
    LogSplit(run, v, |run|);
    if v < t { LogMonotone(run, v + 1, t); }
    if v > t + FRAME_BUFFER_COUNT {
      LogSplit(run, t + FRAME_BUFFER_COUNT, |run|);
      InCleanup(run, t + FRAME_BUFFER_COUNT, i);
      LogMonotone(run, t + FRAME_BUFFER_COUNT + 1, v);
    }
  }

  /** What a later flush adds does not change the log before it. */
  lemma {:induction false} LogExtends(run: seq<Batch>, b: Batch, t: nat)
    requires t <= |run|
    ensures LogOf(run + [b], t) == LogOf(run, t) && Before(run + [b], t) == Before(run, t)
  {
    hide FlushLog;
    if t > 0 {
      LogExtends(run, b, t - 1);
      FlushKept(run, b, t - 1);
    }
  }

  lemma FlushKept(run: seq<Batch>, b: Batch, t: nat)
    requires t < |run|
    ensures FlushLog(run + [b], t) == FlushLog(run, t) && (run + [b])[t] == run[t]
  {
  }

  lemma RunExtends(run: seq<Batch>, b: Batch)
    requires Numbered(run) && forall i :: 0 <= i < |b| ==> b[i].number == Before(run, |run|) + i
    ensures Numbered(run + [b]) && Before(run + [b], |run| + 1) == Before(run, |run|) + |b|
    ensures LogOf(run + [b], |run| + 1) == LogOf(run, |run|) + Cleanup(Released(run, |run|)) + Submits(b)
  {
    hide FlushLog, Cleanup, Submits, Numbered, Released;
    LogExtends(run, b, |run|);
    FlushLast(run, b);
    NumberedExtends(run, b);
  }

  lemma NumberedExtends(run: seq<Batch>, b: Batch)
    requires Numbered(run) && forall i :: 0 <= i < |b| ==> b[i].number == Before(run, |run|) + i
    ensures Numbered(run + [b])
  {
    hide LogOf, Before;
    var n, more: seq<Batch> := |run|, run + [b];
    forall t, i | 0 <= t < n + 1 && 0 <= i < |more[t]|
      ensures more[t][i].number == Before(more, t) + i
    {
      LogExtends(run, b, t);
      if t < n { assert more[t] == run[t]; }
    }
  }

  lemma FlushLast(run: seq<Batch>, b: Batch)
    ensures FlushLog(run + [b], |run|) == Cleanup(Released(run, |run|)) + Submits(b)
  {
    hide Cleanup, Submits;
    assert Released(run + [b], |run|) == Released(run, |run|);
  }

  // ---------------------------------------------------------------------------

  /** The batch k flushes back, nothing before the first. */
  function Recent(run: seq<Batch>, k: nat): Batch
    requires k > 0
  {
    if k <= |run| then run[|run| - k] else []
  }

  /** What flush makes of the cameras. */
  function BatchOf(cameras: seq<Camera>, draws: seq<Draw>, first: nat): (b: Batch)
    ensures |b| == |cameras|
    ensures forall i :: 0 <= i < |b| ==> b[i] == Submission(first + i, cameras[i], draws)
  {
    seq(|cameras|, i requires 0 <= i < |cameras| => Submission(first + i, cameras[i], draws))
  }

  class SystemRenderer {
    var swapchainMap: set<Window>
    var camerasToRender: seq<Camera>
    var drawCalls: seq<DrawCall>
    var instances: seq<Transform>
    var meshes: seq<Mesh>
    var materials: seq<Material>
    const frames: array<FrameData>
    var frameIndex: nat
    var nextHandle: nat             // of the device
    ghost var log: seq<Event>       // what the device was told
    ghost var run: seq<Batch>       // what every flush submitted
    ghost var pending: seq<Draw>    // what was asked for since the last flush

    constructor ()
      ensures Valid() && Faithful() && fresh(frames) && run == [] && pending == [] && meshes == []
    {
      frames := new FrameData[FRAME_BUFFER_COUNT](_ => FrameData([], [], []));
      swapchainMap, camerasToRender, drawCalls, instances, meshes, materials := {}, [], [], [], [], [];
      frameIndex, nextHandle := 0, 0;
      log, run, pending := [], [], [];
    }

    /** The current frame holds what the last flush submitted, the other one what the flush before did. */
    ghost predicate Ring()
      reads `frameIndex, `log, `run, `nextHandle, frames
    {
      && frames.Length == FRAME_BUFFER_COUNT && frameIndex < FRAME_BUFFER_COUNT
      && frames[frameIndex] == FrameOf(Recent(run, 1))
      && frames[(frameIndex + 1) % FRAME_BUFFER_COUNT] == FrameOf(Recent(run, 2))
      && log == LogOf(run, |run|) && Numbered(run) && nextHandle == Before(run, |run|)
    }

    /** Every draw call has its entries, and every camera its swap chain. */
    ghost predicate Collected()
      reads `drawCalls, `instances, `meshes, `materials, `pending, `camerasToRender, `swapchainMap
    {
      && |meshes| == |materials| >= |instances| == |drawCalls| == |pending|
      && (forall k :: 0 <= k < |drawCalls| ==> InRange(drawCalls[k]))
      && forall k :: 0 <= k < |camerasToRender| ==> camerasToRender[k].targetWindow in swapchainMap
    }

    ghost predicate Valid()
      reads this, frames
    {
      Ring() && Collected()
    }

    predicate InRange(d: DrawCall)
      reads `materials, `meshes, `instances
    {
      d.material < |materials| && d.mesh < |meshes| && d.instance < |instances|
    }

    function DrawOf(d: DrawCall): Draw
      requires InRange(d)
      reads `materials, `meshes, `instances
    {
      Draw(materials[d.material], meshes[d.mesh], instances[d.instance])
    }

    /** Every draw call draws what its own render_static_mesh asked for. */
    ghost predicate Faithful()
      requires Collected()
      reads `drawCalls, `instances, `meshes, `materials, `pending, `camerasToRender, `swapchainMap
    {
      forall k :: 0 <= k < |drawCalls| ==> DrawOf(drawCalls[k]) == pending[k]
    }

    /** render_camera: without a swap chain for its window the camera is dropped. */
    method RenderCamera(camera: Camera, created: bool)
      requires Valid()
      modifies `swapchainMap, `camerasToRender
      ensures Valid()
      ensures camerasToRender == old(camerasToRender) +
        if camera.targetWindow in old(swapchainMap) || created then [camera] else []
    {
      hide LogOf, Before, Numbered, FrameOf, Recent;
      if camera.targetWindow !in swapchainMap {
        if !created {
          return;
        }
        swapchainMap := swapchainMap + {camera.targetWindow};
      }
      camerasToRender := camerasToRender + [camera];
    }

    /** render_static_mesh. The meshes and materials of earlier frames stay in their vectors, and the
        indices are 32 bits wide: a draw call draws its own mesh as long as fewer than 2^32 were ever
        collected. */
    method RenderStaticMesh(mesh: Option<Mesh>, slots: seq<Material>, transform: Transform)
      requires Valid() && (mesh.Some? ==> slots != [])
      modifies `instances, `meshes, `materials, `drawCalls, `pending
      ensures Valid()
      ensures mesh.None? ==> drawCalls == old(drawCalls) && pending == old(pending) && (old(Faithful()) ==> Faithful())
      ensures mesh.Some? ==>
        && pending == old(pending) + [Draw(slots[0], mesh.value, transform)]
        && |meshes| == |old(meshes)| + 1
        && (old(Faithful()) ==> (Faithful() <==> DrawOf(drawCalls[|drawCalls| - 1]) == pending[|pending| - 1]))
        && (|old(meshes)| < U32 ==> DrawOf(drawCalls[|drawCalls| - 1]) == pending[|pending| - 1])
        && (|old(meshes)| >= U32 ==> drawCalls[|drawCalls| - 1].mesh < |old(meshes)|)
    {
      hide Ring;
      if mesh.None? {
        return;
      }
      var call := CollectCall(mesh.value, slots[0], transform);
      drawCalls := drawCalls + [call];
      pending := pending + [Draw(slots[0], mesh.value, transform)];
    }

    /** The entries of one draw call, behind those there are. */
    method CollectCall(mesh: Mesh, material: Material, transform: Transform) returns (call: DrawCall)
      requires Collected()
      modifies `instances, `meshes, `materials
      ensures instances == old(instances) + [transform] && meshes == old(meshes) + [mesh] && materials == old(materials) + [material]
      ensures call == DrawCall(|old(materials)| % U32, |old(meshes)| % U32, |old(instances)| % U32) && InRange(call)
      ensures |meshes| <= U32 ==> DrawOf(call) == Draw(material, mesh, transform)
      ensures forall k :: 0 <= k < |drawCalls| ==> InRange(drawCalls[k]) && DrawOf(drawCalls[k]) == old(DrawOf(drawCalls[k]))
    {
      instances := instances + [transform];
      var instanceIdx := (|instances| - 1) % U32;
      meshes := meshes + [mesh];
      var meshIdx := (|meshes| - 1) % U32;
      materials := materials + [material];
      var materialId := (|materials| - 1) % U32;
      call := DrawCall(materialId, meshIdx, instanceIdx);
    }

    /** flush: let go of what the flush before last submitted, then submit one command list per camera. */
    method Flush()
      requires Valid()
      modifies this, frames
      ensures Valid() && Faithful() && pending == [] && camerasToRender == []
      ensures run == old(run) + [BatchOf(old(camerasToRender), old(Drawn(|drawCalls|)), old(nextHandle))]
      ensures old(Faithful()) ==> old(Drawn(|drawCalls|)) == old(pending)
      ensures meshes == old(meshes) && materials == old(materials)
    {
      hide LogOf, Before, Numbered, FrameOf, Cleanup, Submits, Released, Recent, Ring, BatchOf, Drawn, Collected, Faithful;
      DrawnIsPending(|drawCalls|);
      BeginFrame();
      SubmitFrame();
      ClearCalls();
    }

    method ClearCalls()
      requires Collected()
      modifies `camerasToRender, `drawCalls, `instances, `pending
      ensures Collected() && Faithful() && pending == [] && camerasToRender == []
    {
      camerasToRender := [];
      drawCalls := [];
      instances := [];
      pending := [];
    }

    /** One command list per camera, in the emptied frame. */
    method SubmitFrame()
      requires Collected() && frames.Length == FRAME_BUFFER_COUNT && frameIndex < FRAME_BUFFER_COUNT
      requires frames[frameIndex] == FrameData([], [], [])
      requires frames[(frameIndex + 1) % FRAME_BUFFER_COUNT] == FrameOf(Recent(run, 1))
      requires log == LogOf(run, |run|) + Cleanup(Released(run, |run|))
      requires Numbered(run) && nextHandle == Before(run, |run|)
      modifies frames, `log, `nextHandle, `run
      ensures Ring() && run == old(run) + [BatchOf(camerasToRender, Drawn(|drawCalls|), old(nextHandle))]
    {
      hide LogOf, Before, Numbered, FrameOf, Cleanup, Submits, Released, Recent;
      ghost var batch := BatchOf(camerasToRender, Drawn(|drawCalls|), nextHandle);
      FlushCameras(batch);
      RunExtends(run, batch);
      RecentNext(run, batch);
      run := run + [batch];
    }

    /** The next frame of the ring, emptied. */
    method BeginFrame()
      requires Ring()
      modifies `frameIndex, `log, frames
      ensures frames.Length == FRAME_BUFFER_COUNT && frameIndex < FRAME_BUFFER_COUNT
      ensures frames[frameIndex] == FrameData([], [], [])
      ensures frames[(frameIndex + 1) % FRAME_BUFFER_COUNT] == FrameOf(Recent(run, 1))
      ensures log == LogOf(run, |run|) + Cleanup(Released(run, |run|))
      ensures Numbered(run) && nextHandle == Before(run, |run|)
    {
      hide LogOf, Before, Numbered, FrameOf, Cleanup, Waits, DropSemaphores, DropLists;
      CleanupIs(Released(run, |run|));
      frameIndex := (frameIndex + 1) % FRAME_BUFFER_COUNT;
      Release();
    }

    /** Everything the frame holds, waited for and destroyed. */
    method Release()
      requires frames.Length == FRAME_BUFFER_COUNT && frameIndex < FRAME_BUFFER_COUNT
      modifies frames, `log
      ensures var f := old(frames[frameIndex]);
        log == old(log) + (Waits(f.fences) + DropSemaphores(f.semaphores) + DropLists(f.commandLists))
      ensures frames[frameIndex] == FrameData([], [], [])
      ensures forall i :: 0 <= i < frames.Length && i != frameIndex ==> frames[i] == old(frames[i])
    {
      var f := frames[frameIndex];
      WaitOnFences(f.fences);
      frames[frameIndex] := frames[frameIndex].(fences := []);
      DestroySemaphores(f.semaphores);
      frames[frameIndex] := frames[frameIndex].(semaphores := []);
      DestroyLists(f.commandLists);
      frames[frameIndex] := frames[frameIndex].(commandLists := []);
    }

    method WaitOnFences(fences: seq<Handle>)
      modifies `log
      ensures log == old(log) + Waits(fences)
    {
      var i := 0;
      while i < |fences|
        invariant 0 <= i <= |fences| && log == old(log) + Waits(fences[..i])
      {
        log := log + [Wait(fences[i])];
        i := i + 1;
        assert Waits(fences[..i]) == Waits(fences[..i - 1]) + [Wait(fences[i - 1])];
      }
      assert fences[..i] == fences;
    }

    method DestroySemaphores(semaphores: seq<Handle>)
      modifies `log
      ensures log == old(log) + DropSemaphores(semaphores)
    {
      var i := 0;
      while i < |semaphores|
        invariant 0 <= i <= |semaphores| && log == old(log) + DropSemaphores(semaphores[..i])
      {
        log := log + [DropSemaphore(semaphores[i])];
        i := i + 1;
        assert DropSemaphores(semaphores[..i]) == DropSemaphores(semaphores[..i - 1]) + [DropSemaphore(semaphores[i - 1])];
      }
      assert semaphores[..i] == semaphores;
    }

    method DestroyLists(lists: seq<Handle>)
      modifies `log
      ensures log == old(log) + DropLists(lists)
    {
      var i := 0;
      while i < |lists|
        invariant 0 <= i <= |lists| && log == old(log) + DropLists(lists[..i])
      {
        log := log + [DropList(lists[i])];
        i := i + 1;
        assert DropLists(lists[..i]) == DropLists(lists[..i - 1]) + [DropList(lists[i - 1])];
      }
      assert lists[..i] == lists;
    }

    method FlushCameras(ghost batch: Batch)
      requires Collected() && frames.Length == FRAME_BUFFER_COUNT && frameIndex < FRAME_BUFFER_COUNT
      requires frames[frameIndex] == FrameData([], [], [])
      requires batch == BatchOf(camerasToRender, Drawn(|drawCalls|), nextHandle)
      modifies frames, `log, `nextHandle
      ensures frames[frameIndex] == FrameOf(batch) && log == old(log) + Submits(batch)
      ensures nextHandle == old(nextHandle) + |batch|
      ensures forall i :: 0 <= i < frames.Length && i != frameIndex ==> frames[i] == old(frames[i])
    {
      hide Submits, Drawn, InRange;
      var j := 0;
      SubmitsNone();
      assert FrameOf(batch[..0]) == FrameData([], [], []);
      while j < |camerasToRender|
        invariant 0 <= j <= |camerasToRender| && nextHandle == old(nextHandle) + j
        invariant Collected() && Drawn(|drawCalls|) == old(Drawn(|drawCalls|))
        invariant frames[frameIndex] == FrameOf(batch[..j]) && log == old(log) + Submits(batch[..j])
        invariant forall i :: 0 <= i < frames.Length && i != frameIndex ==> frames[i] == old(frames[i])
      {
        FlushCamera(camerasToRender[j]);
        SubmitsNext(batch, j);
        j := j + 1;
      }
      assert batch[..j] == batch;
    }

    /** flush_camera: record the draw calls into a new command list, submit it, and remember it with its
        fence and semaphore in the current frame. */
    method FlushCamera(camera: Camera)
      requires Collected() && frames.Length == FRAME_BUFFER_COUNT && frameIndex < FRAME_BUFFER_COUNT
      requires camera.targetWindow in swapchainMap
      modifies frames, `log, `nextHandle
      ensures var f, n := old(frames[frameIndex]), old(nextHandle);
        && frames[frameIndex] == FrameData(f.fences + [n], f.semaphores + [n], f.commandLists + [n])
        && log == old(log) + [WriteCamera(camera), Submit(n, camera, Drawn(|drawCalls|)), Present(n, camera.targetWindow)]
        && nextHandle == n + 1
      ensures forall i :: 0 <= i < frames.Length && i != frameIndex ==> frames[i] == old(frames[i])
    {
      hide Drawn, Collected;
      log := log + [WriteCamera(camera)];
      var cmdList := nextHandle;
      var draws := GeometryPass();
      log := log + [Submit(cmdList, camera, draws)];
      nextHandle := nextHandle + 1;
      Remember(cmdList);
      log := log + [Present(cmdList, camera.targetWindow)];
    }

    /** The submission in the current frame, until it has been waited for. */
    method Remember(cmdList: Handle)
      requires frames.Length == FRAME_BUFFER_COUNT && frameIndex < FRAME_BUFFER_COUNT
      modifies frames
      ensures var f := old(frames[frameIndex]);
        frames[frameIndex] == FrameData(f.fences + [cmdList], f.semaphores + [cmdList], f.commandLists + [cmdList])
      ensures forall i :: 0 <= i < frames.Length && i != frameIndex ==> frames[i] == old(frames[i])
    {
      frames[frameIndex] := frames[frameIndex].(fences := frames[frameIndex].fences + [cmdList]);
      frames[frameIndex] := frames[frameIndex].(semaphores := frames[frameIndex].semaphores + [cmdList]);
      frames[frameIndex] := frames[frameIndex].(commandLists := frames[frameIndex].commandLists + [cmdList]);
    }

    /** geometry_pass: no index is out of range. */
    method GeometryPass() returns (draws: seq<Draw>)
      requires Collected()
      ensures draws == Drawn(|drawCalls|)
    {
      draws := [];
      var k := 0;
      while k < |drawCalls|
        invariant 0 <= k <= |drawCalls| && draws == Drawn(k)
      {
        var d := drawCalls[k];
        draws := draws + [Draw(materials[d.material], meshes[d.mesh], instances[d.instance])];
        k := k + 1;
      }
    }

    /** What the first n draw calls draw. */
    ghost function Drawn(n: nat): (s: seq<Draw>)
      requires Collected() && n <= |drawCalls|
      reads `drawCalls, `instances, `meshes, `materials, `pending, `camerasToRender, `swapchainMap
      ensures |s| == n
    {
      if n == 0 then [] else Drawn(n - 1) + [DrawOf(drawCalls[n - 1])]
    }

    lemma {:induction false} DrawnIsPending(n: nat)
      requires Collected() && n <= |drawCalls|
      ensures Faithful() ==> Drawn(n) == pending[..n]
      ensures n == |drawCalls| ==> pending[..n] == pending
    {
      if n > 0 { DrawnIsPending(n - 1); }
    }
  }

  lemma RecentNext(run: seq<Batch>, b: Batch)
    ensures Recent(run + [b], 1) == b && Recent(run + [b], 2) == Recent(run, 1)
  {
  }

  lemma CleanupIs(b: Batch)
    ensures var f := FrameOf(b);
      Waits(f.fences) + DropSemaphores(f.semaphores) + DropLists(f.commandLists) == Cleanup(b)
  {
  }

  lemma SubmitsNone()
    ensures Submits([]) == []
  {
  }

  lemma SubmitsNext(b: Batch, j: nat)
    requires j < |b|
    ensures Submits(b[..j + 1]) == Submits(b[..j]) + [WriteCamera(b[j].camera), Submit(b[j].number, b[j].camera, b[j].draws), Present(b[j].number, b[j].camera.targetWindow)]
    ensures var f := FrameOf(b[..j]); var n := b[j].number;
      FrameOf(b[..j + 1]) == FrameData(f.fences + [n], f.semaphores + [n], f.commandLists + [n])
  {
    assert b[..j + 1][..j] == b[..j];
  }
}
