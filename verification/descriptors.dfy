/** `DescriptorLayoutBuilder` and the pool description of
    `DescriptorAllocator::init_pool` (src/vk_descriptors.cpp), up to the
    point where they call into Vulkan. */
module Descriptors {
  import opened Types

  /** `VkDescriptorType`: an enumerant, carried through unchanged. */
  type DescriptorType = uint32

  /** `VkShaderStageFlags`: a bit mask of shader stages. */
  type StageFlags = bv32

  /** `VkDescriptorSetLayoutBinding` (its `pImmutableSamplers` field is
      always null here and is not modelled). */
  datatype LayoutBinding = LayoutBinding(
    binding: uint32,
    descriptorType: DescriptorType,
    descriptorCount: uint32,
    stageFlags: StageFlags)

  datatype LayoutBuilder = LayoutBuilder(bindings: seq<LayoutBinding>)

  /** `VkDescriptorSetLayoutCreateInfo` as handed to
      `vkCreateDescriptorSetLayout`. */
  datatype LayoutCreateInfo = LayoutCreateInfo(
    flags: bv32,
    bindingCount: uint32,
    bindings: seq<LayoutBinding>)

  /** What `build` leaves behind: the builder, whose bindings it updated in
      place, and the create-info it passed to Vulkan. */
  datatype BuildResult = BuildResult(builder: LayoutBuilder, info: LayoutCreateInfo)

  /** `add_binding`: appends one zero-initialised binding record that
      carries the given number and type and a descriptor count of one. */
  function AddBinding(b: LayoutBuilder, binding: uint32, descriptorType: DescriptorType): (r: LayoutBuilder)
    ensures |r.bindings| == |b.bindings| + 1
    ensures r.bindings[..|b.bindings|] == b.bindings
    ensures r.bindings[|b.bindings|].binding == binding
    ensures r.bindings[|b.bindings|].descriptorType == descriptorType
    ensures r.bindings[|b.bindings|].descriptorCount == 1
    ensures r.bindings[|b.bindings|].stageFlags == 0
  {
    LayoutBuilder(b.bindings + [LayoutBinding(binding, descriptorType, 1, 0)])
  }

  /** `clear`. */
  function Clear(b: LayoutBuilder): (r: LayoutBuilder)
    ensures |r.bindings| == 0
  {
    LayoutBuilder([])
  }

  /** One `add_binding` call per `(binding, type)` request, in order. */
  function AddBindings(b: LayoutBuilder, requests: seq<(uint32, DescriptorType)>): LayoutBuilder
    decreases |requests|
  {
    if |requests| == 0 then b
    else AddBindings(AddBinding(b, requests[0].0, requests[0].1), requests[1..])
  }

  /** `flags` has every bit of `bits` set. */
  predicate Includes(flags: StageFlags, bits: StageFlags) {
    flags & bits == bits
  }

  /** One step of the loop at the top of `build`: `b.stageFlags |= stages`.
      The new mask is the smallest one that keeps every stage the binding
      had and adds every requested stage; the number, type and count are
      untouched. */
  function WithStages(x: LayoutBinding, stages: StageFlags): (r: LayoutBinding)
    ensures r.binding == x.binding
    ensures r.descriptorType == x.descriptorType
    ensures r.descriptorCount == x.descriptorCount
    ensures Includes(r.stageFlags, x.stageFlags)
    ensures Includes(r.stageFlags, stages)
    ensures forall m :: Includes(m, x.stageFlags) && Includes(m, stages) ==> Includes(m, r.stageFlags)
  {
    OrIncludesLeft(x.stageFlags, stages);
    OrIncludesRight(x.stageFlags, stages);
    LayoutBinding(x.binding, x.descriptorType, x.descriptorCount, x.stageFlags | stages)
  }

  /** The two halves of "an OR includes both operands", given to the
      solver separately: stated together they exhaust it. */
  lemma OrIncludesLeft(a: StageFlags, b: StageFlags)
    ensures Includes(a | b, a)
  {
  }

  lemma OrIncludesRight(a: StageFlags, b: StageFlags)
    ensures Includes(a | b, b)
  {
  }

  /** The whole loop: every binding gets the requested stages, and the
      list keeps its length and order. */
  function OrStages(bs: seq<LayoutBinding>, stages: StageFlags): (r: seq<LayoutBinding>)
    ensures |r| == |bs|
    ensures forall i :: 0 <= i < |bs| ==> r[i] == WithStages(bs[i], stages)
  {
    if |bs| == 0 then []
    else [WithStages(bs[0], stages)] + OrStages(bs[1..], stages)
  }

  /** `build` up to the `vkCreateDescriptorSetLayout` call. */
  function Build(b: LayoutBuilder, stages: StageFlags): (r: BuildResult)
    ensures |r.builder.bindings| == |b.bindings|
    ensures forall i :: 0 <= i < |b.bindings| ==> r.builder.bindings[i] == WithStages(b.bindings[i], stages)
    ensures r.info.bindings == r.builder.bindings
    ensures |b.bindings| < TWO_TO_THE_32 ==> r.info.bindingCount as int == |b.bindings|
    ensures r.info.flags == 0
  {
    var updated := OrStages(b.bindings, stages);
    BuildResult(LayoutBuilder(updated), LayoutCreateInfo(0, Wrap32(|updated|), updated))
  }

  /** Adding bindings to a cleared builder yields exactly the requested
      records, in request order, each with one descriptor and no stages. */
  lemma {:induction false} AddBindingsInOrder(b: LayoutBuilder, requests: seq<(uint32, DescriptorType)>)
    ensures AddBindings(Clear(b), requests).bindings
         == seq(|requests|, i requires 0 <= i < |requests| => LayoutBinding(requests[i].0, requests[i].1, 1, 0))
  {
    AddBindingsAppend(Clear(b), requests);
  }

  lemma {:induction false} AddBindingsAppend(b: LayoutBuilder, requests: seq<(uint32, DescriptorType)>)
    ensures AddBindings(b, requests).bindings
         == b.bindings + seq(|requests|, i requires 0 <= i < |requests| => LayoutBinding(requests[i].0, requests[i].1, 1, 0))
    decreases |requests|
  {
    if |requests| > 0 {
      var b' := AddBinding(b, requests[0].0, requests[0].1);
      AddBindingsAppend(b', requests[1..]);
      var all := seq(|requests|, i requires 0 <= i < |requests| => LayoutBinding(requests[i].0, requests[i].1, 1, 0));
      var rest := seq(|requests| - 1, i requires 0 <= i < |requests| - 1 => LayoutBinding(requests[1..][i].0, requests[1..][i].1, 1, 0));
      assert all == [all[0]] + rest;
      assert b'.bindings == b.bindings + [all[0]];
    }
  }

  /** Building twice leaves every binding with the union of both stage
      masks. */
  lemma BuildTwiceAccumulates(b: LayoutBuilder, first: StageFlags, second: StageFlags)
    ensures Build(Build(b, first).builder, second) == Build(b, first | second)
  {
  }

  /** Building again with the same mask changes nothing. */
  lemma BuildIsIdempotent(b: LayoutBuilder, stages: StageFlags)
    ensures Build(Build(b, stages).builder, stages) == Build(b, stages)
  {
  }

  /** `DescriptorAllocator::PoolSizeRatio`; the ratio is a float, kept
      opaque as `R`. */
  datatype PoolSizeRatio<R> = PoolSizeRatio(descriptorType: DescriptorType, ratio: R)

  /** `VkDescriptorPoolSize`. */
  datatype PoolSize = PoolSize(descriptorType: DescriptorType, descriptorCount: uint32)

  /** `VkDescriptorPoolCreateInfo` as handed to `vkCreateDescriptorPool`. */
  datatype PoolCreateInfo = PoolCreateInfo(
    flags: bv32,
    maxSets: uint32,
    poolSizeCount: uint32,
    poolSizes: seq<PoolSize>)

  /** `init_pool` up to the `vkCreateDescriptorPool` call. The float
      product `uint32_t(ratio * maxSets)` is the parameter `scaledCount`. */
  method InitPool<R>(maxSets: uint32, poolRatios: seq<PoolSizeRatio<R>>, scaledCount: (R, uint32) -> uint32)
    returns (info: PoolCreateInfo)
    ensures |info.poolSizes| == |poolRatios|
    ensures forall i :: 0 <= i < |poolRatios| ==>
      && info.poolSizes[i].descriptorType == poolRatios[i].descriptorType
      && info.poolSizes[i].descriptorCount == scaledCount(poolRatios[i].ratio, maxSets)
    ensures |poolRatios| < TWO_TO_THE_32 ==> info.poolSizeCount as int == |poolRatios|
    ensures info.maxSets == maxSets
    ensures info.flags == 0
  {
    var poolSizes: seq<PoolSize> := [];
    for i := 0 to |poolRatios|
      invariant |poolSizes| == i
      invariant forall k :: 0 <= k < i ==>
        poolSizes[k] == PoolSize(poolRatios[k].descriptorType, scaledCount(poolRatios[k].ratio, maxSets))
    {
      var ratio := poolRatios[i];
      poolSizes := poolSizes + [PoolSize(ratio.descriptorType, scaledCount(ratio.ratio, maxSets))];
    }
    info := PoolCreateInfo(0, maxSets, Wrap32(|poolSizes|), poolSizes);
  }
}
