/** The renderer's two closed mode enumerations and the step that cycles each
    of them (source/Renderer.h). Both enumerations end in a sentinel `End`
    whose ordinal is the number of live values; a step adds one to the
    ordinal and reduces it modulo that count, as the `static_cast`s do. */
module RenderModes {

  /** `Renderer::RenderMode`: two live values and the `END` sentinel. */
  datatype RenderMode = Default | Depth | End

  /** `Renderer::ShadingMode`: four live values and the `END` sentinel. */
  datatype ShadingMode = ObservedArea | Diffuse | Specular | Combined | End

  /** The integer a `RenderMode` converts to (declaration order from 0). */
  function RenderOrdinal(m: RenderMode): (n: nat)
    ensures n <= 2
    ensures m == RenderMode.End <==> n == 2
  {
    match m
    case Default => 0
    case Depth => 1
    case End => 2
  }

  /** The `RenderMode` an integer in range converts back to. */
  function RenderModeOf(n: nat): (m: RenderMode)
    requires n <= 2
    ensures RenderOrdinal(m) == n
  {
    if n == 0 then Default else if n == 1 then Depth else RenderMode.End
  }

  /** The integer a `ShadingMode` converts to (declaration order from 0). */
  function ShadingOrdinal(m: ShadingMode): (n: nat)
    ensures n <= 4
    ensures m == ShadingMode.End <==> n == 4
  {
    match m
    case ObservedArea => 0
    case Diffuse => 1
    case Specular => 2
    case Combined => 3
    case End => 4
  }

  /** The `ShadingMode` an integer in range converts back to. */
  function ShadingModeOf(n: nat): (m: ShadingMode)
    requires n <= 4
    ensures ShadingOrdinal(m) == n
  {
    if n == 0 then ObservedArea
    else if n == 1 then Diffuse
    else if n == 2 then Specular
    else if n == 3 then Combined
    else ShadingMode.End
  }

  /** The value `NextRenderMode` stores: `(m + 1) % END`. It never yields the
      sentinel, and it moves every live mode to a different one. */
  function NextRender(m: RenderMode): (r: RenderMode)
    ensures r != RenderMode.End
    ensures m != RenderMode.End ==> r != m
  {
    RenderModeOf((RenderOrdinal(m) + 1) % RenderOrdinal(RenderMode.End))
  }

  /** The value `NextShadeMode` stores: `(m + 1) % END`. It never yields the
      sentinel, and it moves every live mode to a different one. */
  function NextShade(m: ShadingMode): (r: ShadingMode)
    ensures r != ShadingMode.End
    ensures m != ShadingMode.End ==> r != m
  {
    ShadingModeOf((ShadingOrdinal(m) + 1) % ShadingOrdinal(ShadingMode.End))
  }

  /** The render modes visited in order: Default, Depth, Default. */
  lemma RenderModeOrder()
    ensures NextRender(Default) == Depth
    ensures NextRender(Depth) == Default
  {
  }

  /** The shading modes visited in order:
      ObservedArea, Diffuse, Specular, Combined, ObservedArea. */
  lemma ShadingModeOrder()
    ensures NextShade(ObservedArea) == Diffuse
    ensures NextShade(Diffuse) == Specular
    ensures NextShade(Specular) == Combined
    ensures NextShade(Combined) == ObservedArea
  {
  }

  /** `f` applied `k` times to `x`. */
  function Iterate<T>(f: T -> T, x: T, k: nat): T
    decreases k
  {
    if k == 0 then x else Iterate(f, f(x), k - 1)
  }

  lemma {:induction false} IterateAdd<T>(f: T -> T, x: T, a: nat, b: nat)
    ensures Iterate(f, x, a + b) == Iterate(f, Iterate(f, x, a), b)
    decreases a
  {
    if a > 0 {
      IterateAdd(f, f(x), a - 1, b);
    }
  }

  /** Two steps of `NextRenderMode` return to the start and one does not:
      the render-mode cycle has period exactly 2. */
  lemma RenderModeCycle(m: RenderMode)
    requires m != RenderMode.End
    ensures Iterate(NextRender, m, 1) != m
    ensures Iterate(NextRender, m, 2) == m
  {
    assert Iterate(NextRender, m, 1) == NextRender(m);
    assert Iterate(NextRender, m, 2) == NextRender(NextRender(m));
  }

  /** Four steps of `NextShadeMode` return to the start and fewer do not:
      the shading-mode cycle has period exactly 4. */
  lemma ShadingModeCycle(m: ShadingMode)
    requires m != ShadingMode.End
    ensures Iterate(NextShade, m, 1) != m
    ensures Iterate(NextShade, m, 2) != m
    ensures Iterate(NextShade, m, 3) != m
    ensures Iterate(NextShade, m, 4) == m
  {
    var m1 := NextShade(m);
    var m2 := NextShade(m1);
    var m3 := NextShade(m2);
    assert Iterate(NextShade, m, 1) == m1;
    assert Iterate(NextShade, m, 2) == m2 by {
      assert Iterate(NextShade, m, 2) == Iterate(NextShade, m1, 1);
    }
    assert Iterate(NextShade, m, 3) == m3 by {
      assert Iterate(NextShade, m, 3) == Iterate(NextShade, m1, 2) == Iterate(NextShade, m2, 1);
    }
    assert Iterate(NextShade, m, 4) == NextShade(m3) by {
      assert Iterate(NextShade, m, 4) == Iterate(NextShade, m1, 3) == Iterate(NextShade, m2, 2)
          == Iterate(NextShade, m3, 1);
    }
    ShadingModeOrder();
  }

  /** Any number of render-mode steps equals that number modulo 2. */
  lemma {:induction false} RenderModeSteps(m: RenderMode, k: nat)
    requires m != RenderMode.End
    ensures Iterate(NextRender, m, k) == Iterate(NextRender, m, k % 2)
    decreases k
  {
    if k >= 2 {
      calc {
        Iterate(NextRender, m, k);
        { IterateAdd(NextRender, m, 2, k - 2); }
        Iterate(NextRender, Iterate(NextRender, m, 2), k - 2);
        { RenderModeCycle(m); }
        Iterate(NextRender, m, k - 2);
        { RenderModeSteps(m, k - 2); }
        Iterate(NextRender, m, (k - 2) % 2);
        { assert (k - 2) % 2 == k % 2; }
        Iterate(NextRender, m, k % 2);
      }
    } else {
      assert k % 2 == k;
    }
  }

  /** Any number of shading-mode steps equals that number modulo 4. */
  lemma {:induction false} ShadingModeSteps(m: ShadingMode, k: nat)
    requires m != ShadingMode.End
    ensures Iterate(NextShade, m, k) == Iterate(NextShade, m, k % 4)
    decreases k
  {
    if k >= 4 {
      calc {
        Iterate(NextShade, m, k);
        { IterateAdd(NextShade, m, 4, k - 4); }
        Iterate(NextShade, Iterate(NextShade, m, 4), k - 4);
        { ShadingModeCycle(m); }
        Iterate(NextShade, m, k - 4);
        { ShadingModeSteps(m, k - 4); }
        Iterate(NextShade, m, (k - 4) % 4);
        { assert (k - 4) % 4 == k % 4; }
        Iterate(NextShade, m, k % 4);
      }
    } else {
      assert k % 4 == k;
    }
  }
}
