/** Enumerations and small value types shared by the services. */
module Domain {
  datatype Option<+T> = None | Some(value: T) {
    /** The value, or `other` if there is none. */
    function GetOr(other: T): T {
      if Some? then value else other
    }
  }

  datatype Result<+T> = Ok(value: T) | Err(error: ServiceError)

  datatype ServiceError = NotFoundError | ConflictError | ForbiddenError | GateBlocked | MultipleRows

  datatype LifecycleState = DRAFT | IN_REVIEW | REVIEWED | VERIFIED | PUBLISHED | DEPRECATED_OBJECT | ARCHIVED

  datatype ValidityStatus = CURRENT | SUPERSEDED | DISPUTED | DEPRECATED | RETRACTED

  datatype RiskBand = LOW | MODERATE | HIGH | EXPERT_ONLY

  /** Position of a band in the order low, moderate, high, expert only. */
  function RiskRank(r: RiskBand): nat {
    match r
    case LOW => 0
    case MODERATE => 1
    case HIGH => 2
    case EXPERT_ONLY => 3
  }

  /** The bands that need an approved review before publishing. */
  predicate HighRisk(r: RiskBand) {
    r.HIGH? || r.EXPERT_ONLY?
  }

  datatype ReviewOutcome = APPROVED | CHANGES_REQUESTED | REJECTED | REVIEW_VERIFIED | REVIEW_DEPRECATED
                           | REVIEW_DISPUTED

  datatype ContradictionStatus = OPEN | TRIAGED | RESOLVED | ACCEPTED_CONTEXTUAL | CONTRADICTION_REJECTED

  datatype COType =
    | CONCEPT_NOTE | SKILL_GUIDE | PROJECT_BLUEPRINT | MODULE | ASSESSMENT | WORKSHEET | REFERENCE_SHEET | GLOSSARY
    | TEACH_FORWARD_PACKET | LEARNING_PATH | FIELD_REPORT | LOCAL_ADAPTATION | EXPERT_REVIEW | CORRECTION
    | SAFETY_NOTICE | TRANSLATION | COMMUNITY_MAP | RESOURCE_DIRECTORY

  /** The types whose structured data must carry a safety boundary or escalation guidance. */
  predicate NeedsSafetyBoundary(t: COType) {
    t.SKILL_GUIDE? || t.PROJECT_BLUEPRINT? || t.LOCAL_ADAPTATION?
  }

  datatype NodeKind = OBJECT_VERSION | ENTITY

  datatype Node = Node(kind: NodeKind, id: nat)

  datatype EdgeType =
    | CONTAINS | PREREQUISITE_FOR | BUILDS_ON | ASSESSED_BY | NEXT_STEP_FOR | ALTERNATIVE_TO | SUPPORTED_BY
    | DERIVED_FROM | QUOTES | SUMMARIZES | VALIDATED_BY | CONTRADICTED_BY | SUPERSEDES | DEPRECATED_BY | CORRECTED_BY
    | TRANSLATED_FROM | FORKED_FROM | ADAPTED_FOR | APPLIES_IN | REQUIRES_TOOL | REQUIRES_MATERIAL | HAS_FAILURE_MODE
    | MITIGATED_BY | UNSAFE_WITHOUT | BOUNDED_BY
}
