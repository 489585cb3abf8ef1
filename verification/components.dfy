/** The plain-data components of the engine (include/Melkam/scene/Components.hpp)
    and the tagged union that lets one type-erased store hold all of them.
    Floating-point fields are modelled as `real`; colours and bit flags as `bv32`. */
module Components {

  /** Entity identifiers are 64-bit unsigned counters in the source; the model
      uses unbounded naturals (the counter never wraps here). */
  type EntityId = nat

  /** Id 0 is reserved: it names no entity and, as a parent, means "root". */
  const InvalidEntity: EntityId := 0

  datatype Vec3 = Vec3(x: real, y: real, z: real)

  const Zero3: Vec3 := Vec3(0.0, 0.0, 0.0)

  /** Parent link (0 = root) and ordered child list. */
  datatype Node = Node(parent: EntityId, children: seq<EntityId>)

  datatype Transform = Transform(position: Vec3, rotation: Vec3, scale: Vec3)

  /** `layer` says what the entity is, `mask` what it may collide with. */
  datatype CollisionLayer = CollisionLayer(layer: bv32, mask: bv32)

  /** Collider flags plus the cached contact state of the last move. */
  datatype Collider = Collider(
    is2D: bool,
    isTrigger: bool,
    lastNormal: Vec3,
    onFloor: bool,
    onWall: bool,
    onCeiling: bool)

  datatype BoxShape2D = BoxShape2D(sizeX: real, sizeY: real)
  datatype CircleShape2D = CircleShape2D(radius: real)
  datatype BoxShape3D = BoxShape3D(size: Vec3)
  datatype SphereShape3D = SphereShape3D(radius: real)
  datatype Velocity2D = Velocity2D(vx: real, vy: real)
  datatype Velocity3D = Velocity3D(v: Vec3)
  datatype CharacterController2D = CharacterController2D(acceleration: real, maxSpeed: real, damping: real)
  datatype Input2D = Input2D(dirX: real, dirY: real)
  datatype CanvasLayer = CanvasLayer(layer: int)

  /** Anchors are fractions of the parent rect, offsets are pixels; rectX..rectH
      hold the last resolved rectangle. */
  datatype Control = Control(
    anchorLeft: real, anchorTop: real, anchorRight: real, anchorBottom: real,
    offsetLeft: real, offsetTop: real, offsetRight: real, offsetBottom: real,
    minW: real, minH: real,
    sizeFlagsH: bv32, sizeFlagsV: bv32,
    rectX: real, rectY: real, rectW: real, rectH: real,
    visible: bool)

  /** A VBox or HBox container: which axis it stacks along, and its spacing. */
  datatype BoxContainer = BoxContainer(padding: real, spacing: real)

  datatype ScrollContainer = ScrollContainer(
    scrollX: real, scrollY: real,
    contentWidth: real, contentHeight: real,
    wheelSpeed: real)

  datatype UiStyle = UiStyle(stylePath: string, useDefault: bool)
  datatype TextEdit = TextEdit(text: string, readOnly: bool)
  datatype TabBar = TabBar(items: string, active: int)

  /** One tag per component type: the key of the type-erased table map. */
  datatype Kind =
    | NameKind | NodeKind | TransformKind
    | ColliderKind | LayerKind
    | Box2DKind | Circle2DKind | Box3DKind | Sphere3DKind
    | Velocity2DKind | Velocity3DKind
    | StaticBodyKind | Controller2DKind | Input2DKind
    | CanvasLayerKind | ControlKind | VBoxKind | HBoxKind
    | ScrollKind | StyleKind | TextEditKind | TabBarKind

  /** A component value of any type, tagged by its type. */
  datatype Component =
    | NameC(name: string)
    | NodeC(node: Node)
    | TransformC(transform: Transform)
    | ColliderC(collider: Collider)
    | LayerC(layers: CollisionLayer)
    | Box2DC(box2: BoxShape2D)
    | Circle2DC(circle: CircleShape2D)
    | Box3DC(box3: BoxShape3D)
    | Sphere3DC(sphere: SphereShape3D)
    | Velocity2DC(vel2: Velocity2D)
    | Velocity3DC(vel3: Velocity3D)
    // `StaticBodyComponent` (include/Melkam/scene/Components.hpp:51), the
    // marker the 2D step's obstacle view asks for; the separate
    // `StaticBody2DComponent` and `StaticBody3DComponent` markers are not
    // part of this model, and the step does not look at them
    | StaticBodyC
    | Controller2DC(controller: CharacterController2D)
    | Input2DC(input: Input2D)
    | CanvasLayerC(canvas: CanvasLayer)
    | ControlC(control: Control)
    | VBoxC(vbox: BoxContainer)
    | HBoxC(hbox: BoxContainer)
    | ScrollC(scroll: ScrollContainer)
    | StyleC(style: UiStyle)
    | TextEditC(textEdit: TextEdit)
    | TabBarC(tabBar: TabBar)

  function KindOf(c: Component): Kind {
    match c
    case NameC(_) => NameKind
    case NodeC(_) => NodeKind
    case TransformC(_) => TransformKind
    case ColliderC(_) => ColliderKind
    case LayerC(_) => LayerKind
    case Box2DC(_) => Box2DKind
    case Circle2DC(_) => Circle2DKind
    case Box3DC(_) => Box3DKind
    case Sphere3DC(_) => Sphere3DKind
    case Velocity2DC(_) => Velocity2DKind
    case Velocity3DC(_) => Velocity3DKind
    case StaticBodyC => StaticBodyKind
    case Controller2DC(_) => Controller2DKind
    case Input2DC(_) => Input2DKind
    case CanvasLayerC(_) => CanvasLayerKind
    case ControlC(_) => ControlKind
    case VBoxC(_) => VBoxKind
    case HBoxC(_) => HBoxKind
    case ScrollC(_) => ScrollKind
    case StyleC(_) => StyleKind
    case TextEditC(_) => TextEditKind
    case TabBarC(_) => TabBarKind
  }

  // Default values, as the source's member initialisers give them.

  const DefaultNode: Node := Node(InvalidEntity, [])

  const DefaultTransform: Transform :=
    Transform(Zero3, Zero3, Vec3(1.0, 1.0, 1.0))

  const AllBits: bv32 := 0xFFFF_FFFF

  const DefaultLayer: CollisionLayer := CollisionLayer(1, AllBits)

  const DefaultCollider: Collider :=
    Collider(true, false, Zero3, false, false, false)

  /** UiSizeFlags: Fill is bit 0, Expand is bit 1. */
  const SizeFill: bv32 := 1
  const SizeExpand: bv32 := 2

  const DefaultControl: Control :=
    Control(0.0, 0.0, 0.0, 0.0,
            0.0, 0.0, 100.0, 30.0,
            0.0, 0.0,
            0, 0,
            0.0, 0.0, 0.0, 0.0,
            true)

  const DefaultScroll: ScrollContainer :=
    ScrollContainer(0.0, 0.0, 0.0, 0.0, 24.0)

  const DefaultVBox: BoxContainer := BoxContainer(8.0, 6.0)
  const DefaultHBox: BoxContainer := BoxContainer(8.0, 10.0)
}
